/** The clean-up of the language model's reply in `get_lyrics`:
    `re.sub(r'```json\s*|\s*```', '', reply).strip()`, which is meant to take the JSON
    document out of a Markdown code fence.

    `re.sub` scans left to right; at each position it tries the first alternative, then the
    second, removes the leftmost match and goes on after it, and copies a character where
    nothing matches. Both alternatives hold backticks, so no match is empty. A greedy `\s*`
    in front of a backtick can only succeed on the whole whitespace run, because a backtick
    is not whitespace: the second alternative matches at a position exactly when the text
    from there, with its leading whitespace dropped, starts with three backticks. `\s` on a
    `str` pattern is the whitespace set of `str.isspace()`.

    As written, whitespace in front of the opening fence lets the second alternative match
    the fence's backticks before the first one is tried at the backticks, so `json` stays
    in the text. `SubFences` is the evidently intended pattern `\s*```json\s*|\s*````. */
module Fences {
  import opened Text

  /** A Markdown code fence. */
  const Fence := "```"

  /** The opening fence of a JSON code block. */
  const JsonFence := "```json"

  /** A JSON document in a code block, as the model is asked to reply. */
  function Fenced(body: string): string {
    JsonFence + body + Fence
  }

  // ---------------------------------------------------------------- as written

  /** `re.sub(r'```json\s*|\s*```', '', s)`. */
  function SubFencesAsWritten(s: string): string
    decreases |s|
  {
    if s == [] then []
    else if JsonFence <= s then SubFencesAsWritten(TrimStart(s[|JsonFence|..]))
    else
      var t := TrimStart(s);
      if Fence <= t then SubFencesAsWritten(t[|Fence|..])
      else [s[0]] + SubFencesAsWritten(s[1..])
  }

  function StripFencesAsWritten(reply: string): string {
    Strip(SubFencesAsWritten(reply))
  }

  // ---------------------------------------------------------------- corrected

  /** `re.sub(r'\s*```json\s*|\s*```', '', s)`: whitespace before either fence goes with it. */
  function SubFences(s: string): string
    decreases |s|
  {
    if s == [] then []
    else
      var t := TrimStart(s);
      if JsonFence <= t then SubFences(TrimStart(t[|JsonFence|..]))
      else if Fence <= t then SubFences(t[|Fence|..])
      else [s[0]] + SubFences(s[1..])
  }

  /** The JSON text handed to `json.loads`. */
  function StripFences(reply: string): string {
    Strip(SubFences(reply))
  }

  // ---------------------------------------------------------------- one step of the scan

  lemma AsWrittenStepJson(s: string)
    requires JsonFence <= s
    ensures SubFencesAsWritten(s) == SubFencesAsWritten(TrimStart(s[|JsonFence|..]))
  {
  }

  lemma AsWrittenStepFence(s: string)
    requires !(JsonFence <= s) && Fence <= TrimStart(s)
    ensures SubFencesAsWritten(s) == SubFencesAsWritten(TrimStart(s)[|Fence|..])
  {
  }

  lemma AsWrittenStepCopy(s: string)
    requires s != [] && !(JsonFence <= s) && !(Fence <= TrimStart(s))
    ensures SubFencesAsWritten(s) == [s[0]] + SubFencesAsWritten(s[1..])
  {
  }

  lemma StepJson(s: string)
    requires JsonFence <= TrimStart(s)
    ensures SubFences(s) == SubFences(TrimStart(TrimStart(s)[|JsonFence|..]))
  {
  }

  lemma StepFence(s: string)
    requires !(JsonFence <= TrimStart(s)) && Fence <= TrimStart(s)
    ensures SubFences(s) == SubFences(TrimStart(s)[|Fence|..])
  {
  }

  lemma StepCopy(s: string)
    requires s != [] && !(JsonFence <= TrimStart(s)) && !(Fence <= TrimStart(s))
    ensures SubFences(s) == [s[0]] + SubFences(s[1..])
  {
  }

  // ---------------------------------------------------------------- shapes

  /** A fenced reply between whitespace, associated to the right. */
  lemma FencedShape(w: string, x: string, w': string)
    ensures w + Fenced(x) + w' == w + (JsonFence + (x + (Fence + w')))
  {
  }

  /** The opening fence is the fence followed by `json`. */
  lemma OpeningShape(x: string)
    ensures JsonFence + (x + Fence) == Fence + (("json" + x) + (Fence + []))
  {
    assert JsonFence == Fence + "json";
  }

  /** What follows an opening fence. */
  lemma AfterOpening(b: string)
    ensures JsonFence <= JsonFence + b && (JsonFence + b)[|JsonFence|..] == b
    ensures (JsonFence + b)[0] == '`'
  {
  }

  /** What follows a fence. */
  lemma AfterFence(b: string)
    ensures Fence <= Fence + b && (Fence + b)[|Fence|..] == b
    ensures (Fence + b)[0] == '`'
  {
  }

  /** A closing fence followed by whitespace is a fence and not an opening JSON fence. */
  lemma ClosingFence(w: string)
    requires AllSpace(w)
    ensures TrimStart(Fence + w) == Fence + w
    ensures Fence <= Fence + w && !(JsonFence <= Fence + w)
    ensures (Fence + w)[|Fence|..] == w
  {
    var z := Fence + w;
    AfterFence(w);
    assert |z| <= 3 || z[3] == w[0];
  }

  // ---------------------------------------------------------------- text without fences

  /** Whitespace in front keeps an opening JSON fence out of the first position. */
  lemma NoJsonAfterSpace(y: string, z: string)
    requires AllSpace(y) && !(JsonFence <= z)
    ensures !(JsonFence <= y + z)
  {
    if y == [] {
      assert y + z == z;
    } else {
      ConsAppend(y, z);
    }
  }

  /** With leading whitespace dropped, a text without backticks starts with no fence. */
  lemma NoFenceStart(s: string)
    requires '`' !in s
    ensures !(Fence <= TrimStart(s)) && !(JsonFence <= TrimStart(s)) && !(JsonFence <= s)
  {
    var t := TrimStart(s);
    if t != [] {
      assert t[0] == s[|s| - |t|];
    }
  }

  /** A text that is not all whitespace and has no backtick keeps any fence after it out
      of the first position. */
  lemma NoFenceStartAppend(y: string, z: string)
    requires '`' !in y && !AllSpace(y)
    ensures !(Fence <= TrimStart(y + z)) && !(JsonFence <= TrimStart(y + z)) && !(JsonFence <= y + z)
  {
    TrimStartAppend(y, z);
    TrimStartOfAllSpace(y);
    var t := TrimStart(y);
    assert t[0] == y[|y| - |t|];
    assert (y + z)[0] == y[0];
    assert TrimStart(y + z)[0] == t[0];
  }

  /** Trimming the front of a text without backticks leaves none in. */
  lemma TrimStartNoBacktick(x: string)
    requires '`' !in x
    ensures '`' !in TrimStart(x)
  {
    var t := TrimStart(x);
    SuffixLacks(x, |x| - |t|, '`');
  }


  // ---------------------------------------------------------------- as written: lemmas

  /** A reply without backticks passes through the substitution unchanged. */
  lemma {:induction false} SubAsWrittenNoFence(s: string)
    requires '`' !in s
    ensures SubFencesAsWritten(s) == s
    decreases |s|
  {
    if s != [] {
      NoFenceStart(s);
      AsWrittenStepCopy(s);
      SuffixLacks(s, 1, '`');
      SubAsWrittenNoFence(s[1..]);
      HeadTail(s);
    }
  }

  /** A closing fence after a text without backticks removes the text's trailing
      whitespace with it. */
  lemma {:induction false} SubAsWrittenBeforeFence(y: string, w: string)
    requires '`' !in y && AllSpace(w)
    ensures SubFencesAsWritten(y + (Fence + w)) == TrimEnd(y) + w
    decreases |y|
  {
    if AllSpace(y) {
      AsWrittenSpacesBeforeFence(y, w);
    } else {
      SuffixLacks(y, 1, '`');
      SubAsWrittenBeforeFence(y[1..], w);
      AsWrittenCopyBeforeFence(y, w);
    }
  }

  lemma AsWrittenSpacesBeforeFence(y: string, w: string)
    requires AllSpace(y) && AllSpace(w)
    ensures SubFencesAsWritten(y + (Fence + w)) == TrimEnd(y) + w
  {
    var z := Fence + w;
    ClosingFence(w);
    TrimStartBefore(y, z);
    TrimStartOfAllSpace(y);
    NoJsonAfterSpace(y, z);
    AsWrittenStepFence(y + z);
    SubAsWrittenNoFence(w);
    TrimEndOfAllSpace(y);
  }

  lemma AsWrittenCopyBeforeFence(y: string, w: string)
    requires '`' !in y && AllSpace(w) && !AllSpace(y)
    requires SubFencesAsWritten(y[1..] + (Fence + w)) == TrimEnd(y[1..]) + w
    ensures SubFencesAsWritten(y + (Fence + w)) == TrimEnd(y) + w
  {
    var z := Fence + w;
    NoFenceStartAppend(y, z);
    AsWrittenStepCopy(y + z);
    ConsAppend(y, z);
    TrimEndCons(y);
    AppendAssoc([y[0]], TrimEnd(y[1..]), w);
  }


  /** A fenced document with nothing in front of it is taken out and stripped. */
  lemma AsWrittenFenced(x: string, w: string)
    requires '`' !in x && AllSpace(w)
    ensures StripFencesAsWritten(Fenced(x) + w) == Strip(x)
  {
    var body := x + (Fence + w);
    FencedShape([], x, w);
    assert Fenced(x) + w == JsonFence + body;
    AfterOpening(body);
    AsWrittenStepJson(JsonFence + body);
    TrimStartBefore(x, Fence + w);
    TrimStartNoBacktick(x);
    SubAsWrittenBeforeFence(TrimStart(x), w);
    StripOfStripped(x, w);
  }

  /** Whitespace in front of the opening fence leaves `json` in the result: the reply
      `w + Fenced(x)` becomes `json` followed by the document with its trailing whitespace
      removed, not the stripped document. */
  lemma AsWrittenLeadingSpace(w: string, x: string)
    requires w != [] && AllSpace(w) && '`' !in x
    ensures StripFencesAsWritten(w + Fenced(x)) == "json" + TrimEnd(x)
  {
    LeadingSpaceSub(w, x);
    TrimEndAfter("json", x);
    JsonThenTrimmed(x);
  }

  /** The second alternative takes the whitespace and the backticks of the opening fence. */
  lemma LeadingSpaceSub(w: string, x: string)
    requires w != [] && AllSpace(w) && '`' !in x
    ensures SubFencesAsWritten(w + Fenced(x)) == TrimEnd("json" + x)
  {
    var f := JsonFence + (x + Fence);
    AppendAssoc(JsonFence, x, Fence);
    var s := w + f;
    AfterOpening(x + Fence);
    SpaceFirst(w, f);
    TrimStartBefore(w, f);
    TrimStartOfAllSpace(w);
    EmptyAppend(f);
    OpeningShape(x);
    var rest := ("json" + x) + (Fence + []);
    AfterFence(rest);
    AsWrittenStepFence(s);
    JsonNoBacktick(x);
    assert AllSpace([]);
    SubAsWrittenBeforeFence("json" + x, []);
    EmptyAppend(TrimEnd("json" + x));
  }

  /** A reply that opens with whitespace does not open with the JSON fence. */
  lemma SpaceFirst(w: string, f: string)
    requires w != [] && AllSpace(w)
    ensures !(JsonFence <= w + f)
  {
    ConsAppend(w, f);
  }

  lemma JsonNoBacktick(x: string)
    requires '`' !in x
    ensures '`' !in "json" + x
  {
  }

  /** `json` followed by a text with its trailing whitespace removed is its own strip. */
  lemma JsonThenTrimmed(x: string)
    ensures Strip("json" + TrimEnd(x)) == "json" + TrimEnd(x)
  {
    var t := TrimEnd(x);
    var r := "json" + t;
    if t == [] {
      assert r[|r| - 1] == 'n';
    } else {
      assert r[|r| - 1] == t[|t| - 1];
    }
    StripUntrimmed(r);
  }

  /** The reply `\n```json\n{}\n```` gives `json\n{}`, which `json.loads` rejects; the
      intended clean-up gives `{}`. */
  lemma FenceFinding()
    ensures StripFencesAsWritten("\n```json\n{}\n```") == "json\n{}"
    ensures StripFences("\n```json\n{}\n```") == "{}"
  {
    var x := "\n{}\n";
    assert "\n```json\n{}\n```" == "\n" + Fenced(x) == "\n" + Fenced(x) + [];
    assert "json" + "\n{}" == "json\n{}";
    AsWrittenLeadingSpace("\n", x);
    TrimmedDocument();
    StripFencesFenced("\n", x, []);
    StrippedDocument(x);
  }

  lemma TrimmedDocument()
    ensures TrimEnd("\n{}\n") == "\n{}"
  {
    TrimEndAppendSpace("\n{}", "\n");
    assert "\n{}" + "\n" == "\n{}\n";
  }

  lemma StrippedDocument(x: string)
    requires x == "\n{}\n"
    ensures Strip(x) == "{}"
  {
    var nl, d := "\n", "{}";
    StripPadded(nl, d, nl);
    assert nl + d + nl == x;
  }

  /** A text that starts and ends with non-whitespace, padded with whitespace, strips to
      itself. */
  lemma StripPadded(w: string, d: string, w': string)
    requires AllSpace(w) && AllSpace(w') && d != [] && !IsSpace(d[0]) && !IsSpace(d[|d| - 1])
    ensures Strip(w + d + w') == d
  {
    StripSurrounded(w, d, w');
    StripUntrimmed(d);
  }


  // ---------------------------------------------------------------- corrected: lemmas

  /** A reply without backticks passes through the substitution unchanged. */
  lemma {:induction false} SubNoFence(s: string)
    requires '`' !in s
    ensures SubFences(s) == s
    decreases |s|
  {
    if s != [] {
      NoFenceStart(s);
      StepCopy(s);
      SuffixLacks(s, 1, '`');
      SubNoFence(s[1..]);
      HeadTail(s);
    }
  }

  /** A closing fence after a text without backticks removes the text's trailing
      whitespace with it. */
  lemma {:induction false} SubBeforeFence(y: string, w: string)
    requires '`' !in y && AllSpace(w)
    ensures SubFences(y + (Fence + w)) == TrimEnd(y) + w
    decreases |y|
  {
    if AllSpace(y) {
      SpacesBeforeFence(y, w);
    } else {
      SuffixLacks(y, 1, '`');
      SubBeforeFence(y[1..], w);
      CopyBeforeFence(y, w);
    }
  }

  lemma SpacesBeforeFence(y: string, w: string)
    requires AllSpace(y) && AllSpace(w)
    ensures SubFences(y + (Fence + w)) == TrimEnd(y) + w
  {
    var z := Fence + w;
    ClosingFence(w);
    TrimStartBefore(y, z);
    TrimStartOfAllSpace(y);
    StepFence(y + z);
    SubNoFence(w);
    TrimEndOfAllSpace(y);
  }

  lemma CopyBeforeFence(y: string, w: string)
    requires '`' !in y && AllSpace(w) && !AllSpace(y)
    requires SubFences(y[1..] + (Fence + w)) == TrimEnd(y[1..]) + w
    ensures SubFences(y + (Fence + w)) == TrimEnd(y) + w
  {
    var z := Fence + w;
    NoFenceStartAppend(y, z);
    StepCopy(y + z);
    ConsAppend(y, z);
    TrimEndCons(y);
    AppendAssoc([y[0]], TrimEnd(y[1..]), w);
  }


  /** Stripping the stripped document followed by whitespace is stripping the document. */
  lemma StripOfStripped(x: string, w: string)
    requires AllSpace(w)
    ensures Strip(TrimEnd(TrimStart(x)) + w) == Strip(x)
  {
    var r := Strip(x);
    assert r == TrimEnd(TrimStart(x));
    StripThenSpace(r, w);
    StripIdempotent(x);
  }

  /** The round trip the clean-up exists for: a JSON document without backticks, fenced
      and surrounded by whitespace, comes back as the stripped document. */
  lemma StripFencesFenced(w: string, x: string, w': string)
    requires AllSpace(w) && AllSpace(w') && '`' !in x
    ensures StripFences(w + Fenced(x) + w') == Strip(x)
  {
    var body := x + (Fence + w');
    var s := w + (JsonFence + body);
    FencedShape(w, x, w');
    AfterOpening(body);
    TrimStartBefore(w, JsonFence + body);
    TrimStartOfAllSpace(w);
    assert TrimStart(s) == JsonFence + body;
    StepJson(s);
    TrimStartBefore(x, Fence + w');
    TrimStartNoBacktick(x);
    SubBeforeFence(TrimStart(x), w');
    StripOfStripped(x, w');
  }

  /** A reply without backticks is only stripped. */
  lemma StripFencesPlain(reply: string)
    requires '`' !in reply
    ensures StripFences(reply) == Strip(reply)
    ensures StripFencesAsWritten(reply) == Strip(reply)
  {
    SubNoFence(reply);
    SubAsWrittenNoFence(reply);
  }
}
