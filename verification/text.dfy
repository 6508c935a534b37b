/** Python `str` operations the server relies on, over `seq<char>`:
    whitespace, `strip()`, `split()` without a separator, `sep.join(...)`,
    `replace(old, new)` for one-character arguments, `find` and `rfind`. */
module Text {
  import opened Wrappers

  /** Python's `str.isspace()` for one character; `str.strip()`, `str.split()` and the
      regular-expression class `\s` on `str` patterns all use this set. */
  predicate IsSpace(c: char) {
    || ('\t' <= c <= '\r')
    || ('\U{1C}' <= c <= '\U{1F}')
    || c == ' '
    || c == '\U{85}'
    || c == '\U{A0}'
    || c == '\U{1680}'
    || ('\U{2000}' <= c <= '\U{200A}')
    || c == '\U{2028}'
    || c == '\U{2029}'
    || c == '\U{202F}'
    || c == '\U{205F}'
    || c == '\U{3000}'
  }

  predicate AllSpace(s: string) {
    forall i :: 0 <= i < |s| ==> IsSpace(s[i])
  }

  /** No character of `s` belongs to `bad`. */
  predicate NoneOf(s: string, bad: set<char>) {
    forall i :: 0 <= i < |s| ==> s[i] !in bad
  }

  /** Removes the leading whitespace run (Python's `str.lstrip()`). */
  function TrimStart(s: string): (r: string)
    ensures |r| <= |s| && r == s[|s| - |r|..]
    ensures AllSpace(s[..|s| - |r|])
    ensures r == [] || !IsSpace(r[0])
  {
    if s != [] && IsSpace(s[0]) then
      var r := TrimStart(s[1..]);
      TrimStartStep(s, r);
      r
    else s
  }

  /** One step of `TrimStart`: a suffix of the tail after a whitespace run is a suffix of
      the whole string after a longer one. */
  lemma TrimStartStep(s: string, r: string)
    requires s != [] && IsSpace(s[0])
    requires |r| <= |s| - 1 && r == s[1..][|s| - 1 - |r|..] && AllSpace(s[1..][..|s| - 1 - |r|])
    ensures r == s[|s| - |r|..] && AllSpace(s[..|s| - |r|])
  {
    assert forall i :: 1 <= i < |s| - |r| ==> s[i] == s[1..][..|s| - 1 - |r|][i - 1];
  }

  /** Removes the trailing whitespace run (Python's `str.rstrip()`). */
  function TrimEnd(s: string): (r: string)
    ensures |r| <= |s| && r == s[..|r|]
    ensures AllSpace(s[|r|..])
    ensures r == [] || !IsSpace(r[|r| - 1])
  {
    if s != [] && IsSpace(s[|s| - 1]) then
      var r := TrimEnd(s[..|s| - 1]);
      TrimEndStep(s, r);
      r
    else s
  }

  /** One step of `TrimEnd`: a prefix of the string without its last, whitespace, character
      is a prefix of the whole string, followed by a longer whitespace run. */
  lemma TrimEndStep(s: string, r: string)
    requires s != [] && IsSpace(s[|s| - 1])
    requires |r| <= |s| - 1 && r == s[..|s| - 1][..|r|] && AllSpace(s[..|s| - 1][|r|..])
    ensures r == s[..|r|] && AllSpace(s[|r|..])
  {
    var p := s[..|s| - 1];
    assert forall i :: |r| <= i < |p| ==> s[i] == p[|r|..][i - |r|];
  }

  /** Python's `str.strip()`: whitespace removed at both ends. */
  function Strip(s: string): (r: string)
    ensures r == [] || (!IsSpace(r[0]) && !IsSpace(r[|r| - 1]))
    ensures r == [] <==> AllSpace(s)
  {
    TrimEnd(TrimStart(s))
  }

  /** What `strip()` removes is whitespace, and only at the two ends: the result is a slice
      of `s` whose surroundings are all whitespace. */
  lemma StripIsSlice(s: string)
    ensures var r := Strip(s);
      exists a :: 0 <= a <= |s| - |r| && r == s[a..a + |r|] && AllSpace(s[..a]) && AllSpace(s[a + |r|..])
  {
    var t := TrimStart(s);
    var r := TrimEnd(t);
    var a := |s| - |t|;
    SliceOfSuffix(s, t, r, a);
    assert 0 <= a <= |s| - |r| && r == s[a..a + |r|] && AllSpace(s[..a]) && AllSpace(s[a + |r|..]);
  }

  /** A prefix `r` of the suffix `t` of `s` from `a` is the slice of `s` from `a`, and what
      follows it in `t` is what follows that slice in `s`. */
  lemma SliceOfSuffix(s: string, t: string, r: string, a: nat)
    requires a <= |s| && t == s[a..] && |r| <= |t| && r == t[..|r|] && AllSpace(t[|r|..])
    ensures a + |r| <= |s| && r == s[a..a + |r|] && AllSpace(s[a + |r|..])
  {
  }

  lemma {:induction false} TrimStartOfAllSpace(s: string)
    ensures TrimStart(s) == [] <==> AllSpace(s)
    decreases |s|
  {
    if s != [] && IsSpace(s[0]) {
      TrimStartOfAllSpace(s[1..]);
      SpaceCons(s);
    }
  }

  /** A string that starts with whitespace is all whitespace exactly when its tail is. */
  lemma SpaceCons(s: string)
    requires s != [] && IsSpace(s[0])
    ensures AllSpace(s) <==> AllSpace(s[1..])
  {
    assert forall i :: 1 <= i < |s| ==> s[i] == s[1..][i - 1];
  }

  /** Trimming the end of a string that has a non-space character keeps its first character. */
  lemma {:induction false} TrimEndCons(s: string)
    requires !AllSpace(s)
    ensures TrimEnd(s) == [s[0]] + TrimEnd(s[1..])
    decreases |s|
  {
    var n := |s|;
    if IsSpace(s[n - 1]) {
      var p := s[..n - 1];
      assert !AllSpace(p) by {
        var k :| 0 <= k < n && !IsSpace(s[k]);
        assert p[k] == s[k];
      }
      TrimEndCons(p);
      assert p[1..] == s[1..][..|s[1..]| - 1];
    } else {
      assert s == [s[0]] + s[1..];
    }
  }

  /** A string of whitespace trims to nothing at its end. */
  lemma TrimEndOfAllSpace(s: string)
    requires AllSpace(s)
    ensures TrimEnd(s) == []
  {
    TrimEndAppendSpace([], s);
    assert [] + s == s;
  }

  /** Trimming the end of `a + t` leaves `a` alone when `a` ends with non-whitespace. */
  lemma {:induction false} TrimEndAfter(a: string, t: string)
    requires a != [] && !IsSpace(a[|a| - 1])
    ensures TrimEnd(a + t) == a + TrimEnd(t)
    decreases |t|
  {
    if t == [] {
      assert a + t == a;
    } else if IsSpace(t[|t| - 1]) {
      var t' := t[..|t| - 1];
      assert (a + t)[..|a + t| - 1] == a + t';
      TrimEndAfter(a, t');
    } else {
      assert (a + t)[|a + t| - 1] == t[|t| - 1];
    }
  }

  /** Whitespace appended after a string is all removed by `TrimEnd`. */
  lemma {:induction false} TrimEndAppendSpace(s: string, w: string)
    requires AllSpace(w)
    ensures TrimEnd(s + w) == TrimEnd(s)
    decreases |w|
  {
    if w != [] {
      var w' := w[..|w| - 1];
      assert (s + w)[..|s + w| - 1] == s + w';
      TrimEndAppendSpace(s, w');
    } else {
      assert s + w == s;
    }
  }

  /** `TrimStart` distributes over a concatenation whose left part is not all whitespace. */
  lemma {:induction false} TrimStartAppend(s: string, t: string)
    ensures TrimStart(s + t) == if AllSpace(s) then TrimStart(t) else TrimStart(s) + t
    decreases |s|
  {
    if s == [] {
      assert s + t == t;
    } else if IsSpace(s[0]) {
      assert (s + t)[0] == s[0];
      assert (s + t)[1..] == s[1..] + t;
      assert AllSpace(s) == AllSpace(s[1..]) by {
        assert forall i :: 1 <= i < |s| ==> s[i] == s[1..][i - 1];
      }
      TrimStartAppend(s[1..], t);
    } else {
      assert (s + t)[0] == s[0];
      assert !AllSpace(s);
    }
  }

  /** Leading whitespace of `x + z` is that of `x` when `z` starts with non-whitespace. */
  lemma TrimStartBefore(x: string, z: string)
    requires z != [] && !IsSpace(z[0])
    ensures TrimStart(x + z) == TrimStart(x) + z
  {
    TrimStartAppend(x, z);
    if AllSpace(x) {
      TrimStartOfAllSpace(x);
      assert TrimStart(z) == z;
    }
  }

  /** `strip()` is idempotent. */
  lemma StripIdempotent(s: string)
    ensures Strip(Strip(s)) == Strip(s)
  {
    var r := Strip(s);
    if r != [] {
      StripUntrimmed(r);
    }
  }

  /** A string that starts and ends with non-whitespace is its own `strip()`. */
  lemma StripUntrimmed(s: string)
    requires s != [] && !IsSpace(s[0]) && !IsSpace(s[|s| - 1])
    ensures Strip(s) == s
  {
    assert TrimStart(s) == s;
  }

  /** Whitespace after a string does not change its `strip()`. */
  lemma StripThenSpace(s: string, w: string)
    requires AllSpace(w)
    ensures Strip(s + w) == Strip(s)
  {
    var e: string := [];
    StripSurrounded(e, s, w);
    EmptyAppend(s);
  }

  /** Whitespace around a string does not change its `strip()`. */
  lemma StripSurrounded(w: string, s: string, w': string)
    requires AllSpace(w) && AllSpace(w')
    ensures Strip(w + s + w') == Strip(s)
  {
    TrimStartAppend(w, s + w');
    assert w + s + w' == w + (s + w');
    if AllSpace(s) {
      TrimStartAppend(s, w');
      assert AllSpace(s + w');
      TrimStartOfAllSpace(s + w');
      TrimStartOfAllSpace(s);
    } else {
      TrimStartAppend(s, w');
      TrimEndAppendSpace(TrimStart(s), w');
    }
  }

  lemma AppendAssoc<T>(a: seq<T>, b: seq<T>, c: seq<T>)
    ensures a + (b + c) == (a + b) + c
  {
  }

  lemma EmptyAppend<T>(s: seq<T>)
    ensures [] + s == s && s + [] == s
  {
  }

  /** What a sequence lacks, each of its suffixes lacks. */
  lemma SuffixLacks<T>(x: seq<T>, k: nat, c: T)
    requires k <= |x| && c !in x
    ensures c !in x[k..]
  {
    assert forall i :: 0 <= i < |x| - k ==> x[k..][i] == x[k + i];
  }

  /** What a concatenation lacks, its left part lacks. */
  lemma PrefixLacks<T>(a: seq<T>, b: seq<T>, c: T)
    requires forall i :: 0 <= i < |a + b| ==> (a + b)[i] != c
    ensures c !in a
  {
    assert forall i :: 0 <= i < |a| ==> a[i] == (a + b)[i];
  }

  /** The head and tail of a concatenation whose left part is not empty. */
  lemma ConsAppend<T>(a: seq<T>, b: seq<T>)
    requires a != []
    ensures (a + b)[0] == a[0] && (a + b)[1..] == a[1..] + b
  {
  }

  /** A sequence is a prefix of its extensions, which continue with the extension. */
  lemma AfterPrefixOf<T>(p: seq<T>, r: seq<T>)
    ensures p <= p + r && (p + r)[|p|..] == r
  {
  }

  /** A non-empty sequence is its head followed by its tail. */
  lemma HeadTail<T>(s: seq<T>)
    requires s != []
    ensures [s[0]] + s[1..] == s
  {
  }

  /** `ConsAppend` for a one-element left part. */
  lemma Cons<T>(x: T, t: seq<T>)
    ensures [x] + t != [] && ([x] + t)[0] == x && ([x] + t)[1..] == t
  {
    ConsAppend([x], t);
    EmptyAppend(t);
  }

  /** A sequence is its prefix followed by the matching suffix. */
  lemma PrefixSuffix<T>(s: seq<T>, k: nat)
    requires k <= |s|
    ensures s[..k] + s[k..] == s
  {
  }

  // ---------------------------------------------------------------- counting and filtering

  function CountOf(s: string, c: char): (n: nat)
    ensures n <= |s|
    ensures n == 0 <==> c !in s
  {
    if s == [] then 0 else (if s[0] == c then 1 else 0) + CountOf(s[1..], c)
  }

  lemma {:induction false} CountOfAppend(s: string, t: string, c: char)
    ensures CountOf(s + t, c) == CountOf(s, c) + CountOf(t, c)
    decreases |s|
  {
    if s == [] {
      assert s + t == t;
    } else {
      assert (s + t)[1..] == s[1..] + t;
      CountOfAppend(s[1..], t, c);
    }
  }

  /** The characters of `s` that are not in `bad`, in order. */
  function Keep(s: string, bad: set<char>): (r: string)
    ensures |r| <= |s|
    ensures NoneOf(r, bad)
    ensures forall c :: c in r <==> c in s && c !in bad
  {
    if s == [] then [] else (if s[0] in bad then [] else [s[0]]) + Keep(s[1..], bad)
  }

  lemma {:induction false} KeepAppend(s: string, t: string, bad: set<char>)
    ensures Keep(s + t, bad) == Keep(s, bad) + Keep(t, bad)
    decreases |s|
  {
    if s == [] {
      assert s + t == t;
    } else {
      assert (s + t)[1..] == s[1..] + t;
      KeepAppend(s[1..], t, bad);
    }
  }

  /** Filtering by one set and then another is filtering by their union. */
  lemma {:induction false} KeepKeep(s: string, a: set<char>, b: set<char>)
    ensures Keep(Keep(s, a), b) == Keep(s, a + b)
    decreases |s|
  {
    if s != [] {
      KeepKeep(s[1..], a, b);
      var head := if s[0] in a then [] else [s[0]];
      KeepAppend(head, Keep(s[1..], a), b);
      assert Keep(head, b) == if s[0] in a + b then [] else [s[0]] by {
        if head != [] {
          assert head[1..] == [];
        }
      }
    }
  }

  /** A string with no character in `bad` is its own filter. */
  lemma {:induction false} KeepNoneOf(s: string, bad: set<char>)
    requires NoneOf(s, bad)
    ensures Keep(s, bad) == s
    decreases |s|
  {
    if s != [] {
      KeepNoneOf(s[1..], bad);
    }
  }

  /** Python's `s.replace(a, b)` for one-character `a` and `b`. */
  function ReplaceChar(s: string, a: char, b: char): (r: string)
    ensures |r| == |s|
    ensures forall i :: 0 <= i < |s| ==> r[i] == (if s[i] == a then b else s[i])
  {
    if s == [] then [] else [if s[0] == a then b else s[0]] + ReplaceChar(s[1..], a, b)
  }

  /** Replacing `a` by `b` is undone by replacing `b` by `a` when `b` did not occur. */
  lemma ReplaceCharRoundTrip(s: string, a: char, b: char)
    requires b !in s
    ensures ReplaceChar(ReplaceChar(s, a, b), b, a) == s
  {
    var r := ReplaceChar(ReplaceChar(s, a, b), b, a);
    assert forall i :: 0 <= i < |s| ==> r[i] == s[i] by {
      forall i | 0 <= i < |s|
        ensures r[i] == s[i]
      {
        assert s[i] != b;
      }
    }
  }

  // ---------------------------------------------------------------- searching

  /** Python's `s.find(c)`: the first index of `c`, or -1. */
  function IndexOf(s: string, c: char): (r: int)
    ensures -1 <= r < |s|
    ensures r >= 0 ==> s[r] == c && c !in s[..r]
    ensures r < 0 ==> c !in s
  {
    if s == [] then -1
    else if s[0] == c then 0
    else
      var k := IndexOf(s[1..], c);
      if k < 0 then -1
      else
        assert s[..k + 1] == [s[0]] + s[1..][..k];
        k + 1
  }

  lemma IndexOfAppend(s: string, c: char, t: string)
    requires c !in s && t != [] && t[0] == c
    ensures IndexOf(s + t, c) == |s|
  {
    assert (s + t)[|s|] == c;
    assert forall j :: 0 <= j < |s| ==> (s + t)[j] == s[j];
    assert forall j :: |s| < j <= |s + t| ==> (s + t)[..j][|s|] == c;
  }

  /** `s` cut before its first `c`: the part free of `c`, and the rest, which starts with `c`. */
  function CutAt(s: string, c: char): (r: Option<(string, string)>)
    ensures r.Some? <==> c in s
    ensures r.Some? ==> s == r.value.0 + r.value.1 && c !in r.value.0 && r.value.1 != [] && r.value.1[0] == c
  {
    var q := IndexOf(s, c);
    if q < 0 then None
    else
      PrefixSuffix(s, q);
      Some((s[..q], s[q..]))
  }

  /** The parts on either side of a one-element separator. */
  lemma AroundSeparator<T>(a: seq<T>, c: T, b: seq<T>)
    ensures (a + [c] + b)[..|a|] == a && (a + [c] + b)[|a| + 1..] == b
  {
  }

  /** Splitting off the first element of the second part of a concatenation. */
  lemma SplitAtHead<T>(a: seq<T>, b: seq<T>)
    requires b != []
    ensures a + b == a + [b[0]] + b[1..]
  {
    HeadTail(b);
    AppendAssoc(a, [b[0]], b[1..]);
  }

  lemma CutAtAppend(a: string, c: char, b: string)
    requires c !in a && b != [] && b[0] == c
    ensures CutAt(a + b, c) == Some((a, b))
  {
    IndexOfAppend(a, c, b);
    assert (a + b)[..|a|] == a;
    assert (a + b)[|a|..] == b;
  }

  /** What follows the prefix `p` of `s`, if `p` is a prefix of `s`. */
  function AfterPrefix(p: string, s: string): (r: Option<string>)
    ensures r.Some? <==> p <= s
    ensures r.Some? ==> s == p + r.value
  {
    if p <= s then
      PrefixSuffix(s, |p|);
      Some(s[|p|..])
    else None
  }

  lemma AfterPrefixAppend(p: string, t: string)
    ensures AfterPrefix(p, p + t) == Some(t)
  {
    AfterPrefixOf(p, t);
  }

  /** What precedes the suffix `x` of `s`, if `x` is a suffix of `s`. */
  function BeforeSuffix(s: string, x: string): (r: Option<string>)
    ensures r.Some? ==> s == r.value + x
  {
    if |x| <= |s| && s[|s| - |x|..] == x then
      PrefixSuffix(s, |s| - |x|);
      Some(s[..|s| - |x|])
    else None
  }

  lemma BeforeSuffixAppend(t: string, x: string)
    ensures BeforeSuffix(t + x, x) == Some(t)
  {
    assert (t + x)[|t|..] == x;
    assert (t + x)[..|t|] == t;
  }

  /** Python's `rfind` generalised to a set of characters: the last index of a member of
      `cs`, or -1. */
  function LastIndexIn(s: string, cs: set<char>): (r: int)
    ensures -1 <= r < |s|
    ensures r >= 0 ==> s[r] in cs
    ensures forall j :: r < j < |s| ==> s[j] !in cs
  {
    if s == [] then -1
    else if s[|s| - 1] in cs then |s| - 1
    else LastIndexIn(s[..|s| - 1], cs)
  }

  /** The last index of a class is at or after any position holding a member of it. */
  lemma {:induction false} LastIndexAtLeast(s: string, cs: set<char>, k: int)
    requires 0 <= k < |s| && s[k] in cs
    ensures LastIndexIn(s, cs) >= k
    decreases |s|
  {
    if s[|s| - 1] !in cs {
      var p := s[..|s| - 1];
      assert p[k] == s[k];
      LastIndexAtLeast(p, cs, k);
    }
  }

  // ---------------------------------------------------------------- split and join

  /** A non-empty run of non-whitespace characters: what `str.split()` returns. */
  predicate IsWord(w: string) {
    w != [] && forall i :: 0 <= i < |w| ==> !IsSpace(w[i])
  }

  /** The length of the leading run of non-whitespace characters. */
  function TokenLen(s: string): (k: nat)
    ensures k <= |s|
    ensures forall i :: 0 <= i < k ==> !IsSpace(s[i])
    ensures k == |s| || IsSpace(s[k])
  {
    if s == [] || IsSpace(s[0]) then 0 else 1 + TokenLen(s[1..])
  }

  /** Python's `str.split()` with no separator: the maximal non-whitespace runs, in order. */
  function Words(s: string): seq<string>
    decreases |s|
  {
    if s == [] then []
    else if IsSpace(s[0]) then Words(s[1..])
    else
      var k := TokenLen(s);
      [s[..k]] + Words(s[k..])
  }

  /** Every element `split()` returns is a word, and it returns nothing exactly for
      all-whitespace input. */
  lemma {:induction false} WordsAreWords(s: string)
    ensures forall i :: 0 <= i < |Words(s)| ==> IsWord(Words(s)[i])
    ensures Words(s) == [] <==> AllSpace(s)
    decreases |s|
  {
    if s != [] {
      if IsSpace(s[0]) {
        WordsAreWords(s[1..]);
        assert AllSpace(s[1..]) ==> AllSpace(s);
      } else {
        WordsAreWords(s[TokenLen(s)..]);
      }
    }
  }

  /** Every word is drawn from the characters of the input. */
  lemma {:induction false} WordsNoneOf(s: string, bad: set<char>)
    requires NoneOf(s, bad)
    ensures forall i :: 0 <= i < |Words(s)| ==> NoneOf(Words(s)[i], bad)
    decreases |s|
  {
    if s != [] {
      if IsSpace(s[0]) {
        WordsNoneOf(s[1..], bad);
      } else {
        var k := TokenLen(s);
        WordsNoneOf(s[k..], bad);
        assert NoneOf(s[..k], bad);
      }
    }
  }

  /** Python's `sep.join(ws)`. */
  function JoinWith(sep: string, ws: seq<string>): (r: string)
    ensures ws == [] ==> r == []
  {
    if ws == [] then ""
    else if |ws| == 1 then ws[0]
    else ws[0] + sep + JoinWith(sep, ws[1..])
  }

  /** Joining one more element appends the separator and the element. */
  lemma {:induction false} JoinWithSnoc(sep: string, ws: seq<string>, w: string)
    requires ws != []
    ensures JoinWith(sep, ws + [w]) == JoinWith(sep, ws) + sep + w
    decreases |ws|
  {
    if |ws| == 1 {
      assert (ws + [w])[1..] == [w];
    } else {
      assert (ws + [w])[1..] == ws[1..] + [w];
      JoinWithSnoc(sep, ws[1..], w);
    }
  }

  /** A join contains no character of `bad` when neither the parts nor the separator do. */
  lemma {:induction false} JoinWithNoneOf(sep: string, ws: seq<string>, bad: set<char>)
    requires NoneOf(sep, bad)
    requires forall i :: 0 <= i < |ws| ==> NoneOf(ws[i], bad)
    ensures NoneOf(JoinWith(sep, ws), bad)
    decreases |ws|
  {
    if |ws| > 1 {
      JoinWithNoneOf(sep, ws[1..], bad);
      assert forall c :: c in ws[0] + sep + JoinWith(sep, ws[1..]) ==>
        c in ws[0] || c in sep || c in JoinWith(sep, ws[1..]);
    }
  }

  lemma WordsOfWord(w: string)
    requires IsWord(w)
    ensures Words(w) == [w]
  {
    assert TokenLen(w) == |w|;
    assert w[..|w|] == w;
    assert w[|w|..] == [];
  }

  /** `TokenLen` across a concatenation. */
  lemma {:induction false} TokenLenAppend(s: string, t: string)
    ensures TokenLen(s + t) == if TokenLen(s) < |s| then TokenLen(s) else |s| + TokenLen(t)
    decreases |s|
  {
    if s == [] {
      assert s + t == t;
    } else if !IsSpace(s[0]) {
      assert (s + t)[1..] == s[1..] + t;
      TokenLenAppend(s[1..], t);
    }
  }

  /** Splitting at a whitespace character splits the word list. */
  lemma {:induction false} WordsSplitAt(x: string, c: char, y: string)
    requires IsSpace(c)
    ensures Words(x + [c] + y) == Words(x) + Words(y)
    decreases |x|
  {
    var s := x + [c] + y;
    if x == [] {
      assert s == [c] + y;
      assert s[1..] == y;
    } else if IsSpace(x[0]) {
      assert s[1..] == x[1..] + [c] + y;
      WordsSplitAt(x[1..], c, y);
    } else {
      var k := TokenLen(x);
      if k < |x| {
        WordsSplitAt(x[k..], c, y);
        TokenThenMore(x, c, y);
      } else {
        WordThenSpace(x, c, y);
      }
    }
  }

  lemma TokenThenMore(x: string, c: char, y: string)
    requires IsSpace(c) && x != [] && !IsSpace(x[0]) && TokenLen(x) < |x|
    requires Words(x[TokenLen(x)..] + [c] + y) == Words(x[TokenLen(x)..]) + Words(y)
    ensures Words(x + [c] + y) == Words(x) + Words(y)
  {
    WordsFirstToken(x, c, y);
    var k := TokenLen(x);
    var rest := x[k..];
    AppendAssoc(x, [c], y);
    SuffixThen(x, k, [c] + y);
    AppendAssoc(rest, [c], y);
    assert Words(x) == [x[..k]] + Words(rest);
    AppendAssoc([x[..k]], Words(rest), Words(y));
  }

  /** The suffix from `k` of `x + z` is the suffix of `x` followed by `z`. */
  lemma SuffixThen<T>(x: seq<T>, k: nat, z: seq<T>)
    requires k <= |x|
    ensures (x + z)[k..] == x[k..] + z
  {
  }

  lemma WordThenSpace(x: string, c: char, y: string)
    requires IsSpace(c) && x != [] && !IsSpace(x[0]) && TokenLen(x) == |x|
    ensures Words(x + [c] + y) == Words(x) + Words(y)
  {
    WordsFirstToken(x, c, y);
    var s := x + [c] + y;
    var t := [c] + y;
    assert s[|x|..] == t;
    assert t[1..] == y;
    assert x[..|x|] == x;
    WordsOfWord(x);
  }

  /** When `x` starts with a word, that word is also the first token of `x + [c] + y`. */
  lemma WordsFirstToken(x: string, c: char, y: string)
    requires IsSpace(c) && x != [] && !IsSpace(x[0])
    ensures var k := TokenLen(x);
      Words(x + [c] + y) == [x[..k]] + Words((x + [c] + y)[k..])
  {
    var s := x + [c] + y;
    TokenLenAppend(x, [c] + y);
    assert s == x + ([c] + y);
    assert TokenLen([c] + y) == 0;
    var k := TokenLen(x);
    assert TokenLen(s) == k;
    assert s[..k] == x[..k];
  }

  /** Re-splitting a space-joined list of words gives the list back. */
  lemma {:induction false} WordsOfJoin(ws: seq<string>)
    requires forall i :: 0 <= i < |ws| ==> IsWord(ws[i])
    ensures Words(JoinWith(" ", ws)) == ws
    decreases |ws|
  {
    if |ws| == 1 {
      WordsOfWord(ws[0]);
    } else if |ws| > 1 {
      WordsOfJoin(ws[1..]);
      WordsOfWord(ws[0]);
      WordsSplitAt(ws[0], ' ', JoinWith(" ", ws[1..]));
      assert ws[0] + " " + JoinWith(" ", ws[1..]) == ws[0] + [' '] + JoinWith(" ", ws[1..]);
      assert ws == [ws[0]] + ws[1..];
    }
  }
}
