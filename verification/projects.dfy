/** The `/list_projects` endpoint: one project per directory of the output folder, named
    after the directory with underscores shown as spaces, newest first.

    The sort is Python's `list.sort(key=..., reverse=True)`, which is stable: projects with
    the same creation time keep the order of the directory listing. */
module Projects {
  import opened Wrappers
  import opened Text

  /** One entry of the output folder: its name, whether it is a directory, and its creation
      time as `os.path.getctime` reports it. */
  datatype DirEntry = DirEntry(name: string, isDir: bool, ctime: real)

  /** One element of the JSON answer. */
  datatype Project = Project(id: string, name: string, date: real)

  /** The shown name of a project folder: every `_` becomes a space. */
  function DisplayName(id: string): string {
    ReplaceChar(id, '_', ' ')
  }

  /** A folder name without spaces is recovered from its shown name. */
  lemma DisplayNameRoundTrip(id: string)
    requires ' ' !in id
    ensures ReplaceChar(DisplayName(id), ' ', '_') == id
    ensures |DisplayName(id)| == |id| && '_' !in DisplayName(id)
  {
    ReplaceCharRoundTrip(id, '_', ' ');
  }

  function ProjectOf(e: DirEntry): Project {
    Project(e.name, DisplayName(e.name), e.ctime)
  }

  /** The projects of a listing, in listing order: directories only. */
  function Collect(entries: seq<DirEntry>): seq<Project>
    decreases |entries|
  {
    if entries == [] then []
    else
      var e := entries[|entries| - 1];
      Collect(entries[..|entries| - 1]) + (if e.isDir then [ProjectOf(e)] else [])
  }

  /** Every directory of the listing gives a project, and every project comes from a
      directory of the listing, under its shown name. */
  lemma {:induction false} CollectMembers(entries: seq<DirEntry>)
    ensures forall i :: 0 <= i < |entries| && entries[i].isDir ==> ProjectOf(entries[i]) in Collect(entries)
    ensures forall p :: p in Collect(entries) ==>
      DirEntry(p.id, true, p.date) in entries && p.name == DisplayName(p.id)
    decreases |entries|
  {
    if entries != [] {
      var init := entries[..|entries| - 1];
      CollectMembers(init);
      assert forall i :: 0 <= i < |init| ==> init[i] == entries[i];
    }
  }

  // ---------------------------------------------------------------- newest first

  /** Non-increasing creation times. */
  predicate Descending(ps: seq<Project>) {
    forall i, j :: 0 <= i < j < |ps| ==> ps[i].date >= ps[j].date
  }

  /** The projects created at time `d`, in order. */
  function OnDate(ps: seq<Project>, d: real): (r: seq<Project>)
    ensures forall p :: p in r ==> p in ps && p.date == d
  {
    if ps == [] then []
    else if ps[0].date == d then [ps[0]] + OnDate(ps[1..], d)
    else OnDate(ps[1..], d)
  }

  /** Puts `p` before the first project that is not newer than it. */
  function Insert(p: Project, ps: seq<Project>): (r: seq<Project>)
    ensures multiset(r) == multiset(ps) + multiset{p}
  {
    if ps == [] then [p]
    else if p.date >= ps[0].date then [p] + ps
    else
      MultisetCons(ps);
      [ps[0]] + Insert(p, ps[1..])
  }

  /** `sort(key=date, reverse=True)`, as an insertion sort from the back of the list. */
  function SortByDate(ps: seq<Project>): (r: seq<Project>)
    ensures multiset(r) == multiset(ps)
  {
    if ps == [] then []
    else
      MultisetCons(ps);
      Insert(ps[0], SortByDate(ps[1..]))
  }

  lemma MultisetCons<T>(s: seq<T>)
    requires s != []
    ensures multiset(s) == multiset{s[0]} + multiset(s[1..])
  {
    assert s == [s[0]] + s[1..];
  }

  /** Inserting into a newest-first list keeps it newest first. */
  lemma {:induction false} InsertDescending(p: Project, ps: seq<Project>)
    requires Descending(ps)
    ensures Descending(Insert(p, ps))
    decreases |ps|
  {
    if ps != [] && p.date < ps[0].date {
      var rest := ps[1..];
      InsertDescending(p, rest);
      InsertBounded(p, rest, ps[0].date);
    }
  }

  /** Every project of `Insert(p, ps)` is `p` or one of `ps`, so an upper bound of both
      bounds the result. */
  lemma InsertBounded(p: Project, ps: seq<Project>, top: real)
    requires p.date <= top
    requires forall q :: q in ps ==> q.date <= top
    ensures forall j :: 0 <= j < |Insert(p, ps)| ==> Insert(p, ps)[j].date <= top
  {
    var r := Insert(p, ps);
    forall j | 0 <= j < |r|
      ensures r[j].date <= top
    {
      assert r[j] in multiset(r);
      if r[j] != p {
        assert r[j] in multiset(ps);
      }
    }
  }

  /** Inserting `p` adds it in front of the projects of its own time, and nowhere else. */
  lemma {:induction false} InsertOnDate(p: Project, ps: seq<Project>, d: real)
    ensures OnDate(Insert(p, ps), d) == if p.date == d then [p] + OnDate(ps, d) else OnDate(ps, d)
    decreases |ps|
  {
    if ps != [] && p.date < ps[0].date {
      var head, rest := ps[0], ps[1..];
      var tail := Insert(p, rest);
      InsertOnDate(p, rest, d);
      Cons(head, tail);
      if p.date == d {
        assert OnDate([head] + tail, d) == OnDate(tail, d);
      }
    }
  }

  /** The sort is stable: the projects of any one time keep their relative order. */
  lemma {:induction false} SortOnDate(ps: seq<Project>, d: real)
    ensures OnDate(SortByDate(ps), d) == OnDate(ps, d)
    ensures Descending(SortByDate(ps))
    decreases |ps|
  {
    if ps != [] {
      SortOnDate(ps[1..], d);
      InsertOnDate(ps[0], SortByDate(ps[1..]), d);
      InsertDescending(ps[0], SortByDate(ps[1..]));
    }
  }

  // ---------------------------------------------------------------- the endpoint

  /** `/list_projects`: `listing` is the output folder's listing, `None` when the folder
      does not exist. */
  method ListProjects(listing: Option<seq<DirEntry>>) returns (projects: seq<Project>)
    ensures listing.None? ==> projects == []
    ensures listing.Some? ==> multiset(projects) == multiset(Collect(listing.value))
    ensures Descending(projects)
    ensures forall d :: OnDate(projects, d) == OnDate(Collect(listing.GetOr([])), d)
    ensures listing.Some? ==> forall i :: 0 <= i < |listing.value| && listing.value[i].isDir ==>
      ProjectOf(listing.value[i]) in projects
    ensures forall p :: p in projects ==>
      listing.Some? && DirEntry(p.id, true, p.date) in listing.value && p.name == DisplayName(p.id)
  {
    var found: seq<Project> := [];
    var entries := listing.GetOr([]);
    var i := 0;
    while i < |entries|
      invariant 0 <= i <= |entries|
      invariant found == Collect(entries[..i])
    {
      var e := entries[i];
      PrefixStep(entries, i);
      if e.isDir {
        found := found + [Project(e.name, DisplayName(e.name), e.ctime)];
      }
      i := i + 1;
    }
    PrefixAll(entries);
    projects := SortByDate(found);
    forall d: real
      ensures OnDate(projects, d) == OnDate(found, d)
    {
      SortOnDate(found, d);
    }
    SortOnDate(found, 0.0);
    CollectMembers(entries);
    forall p | p in projects
      ensures p in found
    {
      assert p in multiset(projects);
    }
    forall q | q in found
      ensures q in projects
    {
      assert q in multiset(found);
    }
  }

  lemma PrefixStep<T>(s: seq<T>, i: nat)
    requires i < |s|
    ensures s[..i + 1][..i] == s[..i] && s[..i + 1][i] == s[i] && |s[..i + 1]| == i + 1
  {
  }

  lemma PrefixAll<T>(s: seq<T>)
    ensures s[..|s|] == s
  {
  }

  /** A listing of two directories around a file keeps the two directories. */
  lemma CollectThree(a: DirEntry, b: DirEntry, c: DirEntry)
    requires a.isDir && !b.isDir && c.isDir
    ensures Collect([a, b, c]) == [ProjectOf(a), ProjectOf(c)]
  {
    assert [a, b, c][..2] == [a, b];
    assert [a, b][..1] == [a];
    assert [a][..0] == [];
    assert Collect([a]) == [ProjectOf(a)];
    assert Collect([a, b]) == [ProjectOf(a)];
  }

  /** Two projects, the older first, are swapped. */
  lemma SortTwo(p: Project, q: Project)
    requires p.date < q.date
    ensures SortByDate([p, q]) == [q, p]
  {
    assert [p, q][1..] == [q];
    assert [q][1..] == [];
  }

  /** Two folders, the older listed first, come out newest first; the file is skipped. */
  lemma ListExample()
    ensures SortByDate(Collect([DirEntry("old_song", true, 1.0), DirEntry("notes.txt", false, 3.0),
      DirEntry("new_song", true, 2.0)])) ==
      [Project("new_song", DisplayName("new_song"), 2.0), Project("old_song", DisplayName("old_song"), 1.0)]
  {
    var a := DirEntry("old_song", true, 1.0);
    var b := DirEntry("notes.txt", false, 3.0);
    var c := DirEntry("new_song", true, 2.0);
    CollectThree(a, b, c);
    SortTwo(ProjectOf(a), ProjectOf(c));
  }

  /** One underscore between two plain words becomes one space. */
  lemma ShownOne(x: string, y: string)
    requires '_' !in x && '_' !in y
    ensures DisplayName(x + "_" + y) == x + " " + y
  {
    var s, r := x + "_" + y, x + " " + y;
    assert forall i :: 0 <= i < |s| ==> (if i < |x| then s[i] == x[i] && r[i] == x[i]
      else if i == |x| then s[i] == '_' && r[i] == ' ' else s[i] == y[i - |x| - 1] && r[i] == y[i - |x| - 1]);
  }
}
