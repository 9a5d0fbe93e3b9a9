/**
 * The response envelope of the generative-language service and the extraction of
 * its text (extractTextFromGeminiResponse). The envelope is loosely shaped, so
 * each property the extractor probes is a tagged variant of what `typeof` and
 * `Array.isArray` can tell apart.
 */
module GeminiResponse {
  import opened Wrappers
  import opened Text

  /** A property read from an untyped object: absent (undefined), a string, or any other value. */
  datatype Field = Missing | Str(s: string) | NonString

  /**
   * One element of `content.parts`: a bare string, or any other value whose
   * `text` property is `Some` when it is a string and `None` when it is absent or
   * falsy (the part itself may be null). `Some("")` contributes what `None` does.
   */
  datatype Part = StringPart(s: string) | ObjectPart(text: Option<string>)

  /** A candidate; `parts` is `None` unless `content.parts` is an array. A null candidate has neither. */
  datatype Candidate = Candidate(parts: Option<seq<Part>>, text: Field)

  /** The envelope; `candidates` is `None` unless it is an array. */
  datatype Envelope = Envelope(text: Field, candidates: Option<seq<Candidate>>)

  /** The service's answer: a falsy value (`Absent`) or an envelope. */
  datatype Response = Absent | Present(envelope: Envelope)

  /** What one part adds to the joined text: `typeof p === "string" ? p : p?.text || ""`. */
  function Contribution(p: Part): string {
    match p
    case StringPart(s) => s
    case ObjectPart(None) => ""
    case ObjectPart(Some(t)) => t
  }

  /** `parts.map(Contribution).join("")`. */
  function Joined(parts: seq<Part>): (r: string)
    ensures parts == [] ==> r == ""
    ensures (forall i | 0 <= i < |parts| :: Blank(Contribution(parts[i]))) ==> Blank(r)
  {
    if parts == [] then ""
    else
      var head, tail := Contribution(parts[0]), Joined(parts[1..]);
      assert forall i | 1 <= i < |parts| :: parts[i] == parts[1..][i - 1];
      assert forall k | |head| <= k < |head| + |tail| :: (head + tail)[k] == tail[k - |head|];
      head + tail
  }

  /** `typeof x === "string" && x.trim()` as an optional trimmed text. */
  function UsableText(f: Field): (r: Option<string>)
    ensures r.Some? <==> f.Str? && !Blank(f.s)
    ensures r.Some? ==> r.value == Trim(f.s)
  {
    if f.Str? && Trim(f.s) != [] then Some(Trim(f.s)) else None
  }

  /**
   * extractTextFromGeminiResponse: the top-level text, else the joined parts of
   * the first candidate, else that candidate's own text, each trimmed and taken
   * only when it is not blank; `None` (null) when no source qualifies.
   */
  function Extract(resp: Response): (r: Option<string>)
    ensures r.Some? ==> r.value != [] && IsTrimmed(r.value)
    ensures resp.Absent? ==> r.None?
  {
    match resp
    case Absent => None
    case Present(env) =>
      if env.text.Str? && Trim(env.text.s) != [] then Some(Trim(env.text.s))
      else if env.candidates.Some? && |env.candidates.value| > 0 then
        var cand := env.candidates.value[0];
        if cand.parts.Some? && Trim(Joined(cand.parts.value)) != [] then Some(Trim(Joined(cand.parts.value)))
        else if cand.text.Str? && Trim(cand.text.s) != [] then Some(Trim(cand.text.s))
        else None
      else None
  }

  // ----- An independent statement of the precedence -----

  /** The texts extraction may draw from, highest precedence first. */
  function Sources(resp: Response): seq<string> {
    match resp
    case Absent => []
    case Present(env) =>
      StringOf(env.text)
      + (if env.candidates.Some? && |env.candidates.value| > 0
         then CandidateSources(env.candidates.value[0]) else [])
  }

  function StringOf(f: Field): seq<string> {
    if f.Str? then [f.s] else []
  }

  function CandidateSources(c: Candidate): seq<string> {
    (if c.parts.Some? then [Joined(c.parts.value)] else []) + StringOf(c.text)
  }

  /** The position of the first non-blank text in `ss`, or `|ss|` when all are blank. */
  function FirstNonBlank(ss: seq<string>): (k: nat)
    ensures k <= |ss|
    ensures forall j | 0 <= j < k :: Blank(ss[j])
    ensures k < |ss| ==> !Blank(ss[k])
  {
    if ss == [] || !Blank(ss[0]) then 0
    else
      var k := FirstNonBlank(ss[1..]);
      assert forall j | 1 <= j <= k :: ss[j] == ss[1..][j - 1];
      k + 1
  }

  /** The trim of the first non-blank text in `ss`, or `None` when all are blank. */
  function FirstUsable(ss: seq<string>): Option<string> {
    var k := FirstNonBlank(ss);
    if k < |ss| then Some(Trim(ss[k])) else None
  }

  /** In `a + b` the first non-blank text is the first of `a`, or failing that the first of `b`. */
  lemma {:induction false} FirstNonBlankAppend(a: seq<string>, b: seq<string>)
    ensures FirstNonBlank(a + b)
         == if FirstNonBlank(a) < |a| then FirstNonBlank(a) else |a| + FirstNonBlank(b)
  {
    if a == [] {
      assert a + b == b;
    } else {
      assert (a + b)[0] == a[0];
      if Blank(a[0]) {
        assert (a + b)[1..] == a[1..] + b;
        FirstNonBlankAppend(a[1..], b);
      }
    }
  }

  /** Putting texts in front of a list whose first usable text is known. */
  lemma FirstUsableAppend(a: seq<string>, b: seq<string>)
    ensures FirstUsable(a + b) == if FirstUsable(a).Some? then FirstUsable(a) else FirstUsable(b)
  {
    FirstNonBlankAppend(a, b);
    var k := FirstNonBlank(a);
    if k < |a| {
      assert (a + b)[k] == a[k];
    } else {
      var j := FirstNonBlank(b);
      if j < |b| { assert (a + b)[|a| + j] == b[j]; }
    }
  }

  /** A single source is usable exactly when it is not blank. */
  lemma FirstUsableOfOne(f: Field)
    ensures FirstUsable(StringOf(f)) == UsableText(f)
  {
    if f.Str? {
      assert FirstNonBlank([f.s]) == (if Blank(f.s) then 1 else 0);
    }
  }

  /** The candidate's sources, parts first, give what extraction takes from that candidate. */
  lemma CandidateFirstUsable(c: Candidate)
    ensures FirstUsable(CandidateSources(c))
         == if c.parts.Some? && !Blank(Joined(c.parts.value)) then Some(Trim(Joined(c.parts.value)))
            else UsableText(c.text)
  {
    var p := if c.parts.Some? then [Joined(c.parts.value)] else [];
    FirstUsableAppend(p, StringOf(c.text));
    FirstUsableOfOne(c.text);
    if c.parts.Some? {
      FirstUsableOfOne(Str(Joined(c.parts.value)));
    }
  }

  /** Extraction takes the first non-blank source in precedence order, trimmed. */
  lemma ExtractIsFirstUsable(resp: Response)
    ensures Extract(resp) == FirstUsable(Sources(resp))
  {
    if resp.Present? {
      var env := resp.envelope;
      var rest := if env.candidates.Some? && |env.candidates.value| > 0
                  then CandidateSources(env.candidates.value[0]) else [];
      FirstUsableAppend(StringOf(env.text), rest);
      FirstUsableOfOne(env.text);
      if env.candidates.Some? && |env.candidates.value| > 0 {
        CandidateFirstUsable(env.candidates.value[0]);
      }
    }
  }

  /** The result is null exactly when the response is absent or every source is blank. */
  lemma ExtractNullIffAllBlank(resp: Response)
    ensures Extract(resp).None? <==> forall i | 0 <= i < |Sources(resp)| :: Blank(Sources(resp)[i])
  {
    ExtractIsFirstUsable(resp);
  }

  /** A non-blank top-level string wins, whatever the candidates hold. */
  lemma TopLevelTextWins(s: string, candidates: Option<seq<Candidate>>)
    requires !Blank(s)
    ensures Extract(Present(Envelope(Str(s), candidates))) == Some(Trim(s))
  {
  }

  /** Only the first candidate is consulted: later candidates never change the result. */
  lemma OnlyFirstCandidateCounts(text: Field, first: Candidate, rest1: seq<Candidate>, rest2: seq<Candidate>)
    ensures Extract(Present(Envelope(text, Some([first] + rest1))))
         == Extract(Present(Envelope(text, Some([first] + rest2))))
  {
  }

  /**
   * With an unusable top-level text and a first candidate whose parts join to a
   * non-blank text, the result is that text trimmed, whatever the candidate's own text.
   */
  lemma PartsBeforeCandidateText(text: Field, parts: seq<Part>, candText: Field, rest: seq<Candidate>)
    requires UsableText(text).None? && !Blank(Joined(parts))
    ensures Extract(Present(Envelope(text, Some([Candidate(Some(parts), candText)] + rest))))
         == Some(Trim(Joined(parts)))
  {
  }

  /**
   * The first candidate's own text is taken only when the top-level text is
   * unusable and the parts are missing or join to a blank text.
   */
  lemma CandidateTextLast(env: Envelope)
    requires env.candidates.Some? && |env.candidates.value| > 0
    requires UsableText(env.text).None?
    ensures var c := env.candidates.value[0];
      Extract(Present(env)) ==
        if c.parts.Some? && !Blank(Joined(c.parts.value)) then Some(Trim(Joined(c.parts.value)))
        else UsableText(c.text)
  {
  }

  /** Joining distributes over concatenation of the part lists. */
  lemma {:induction false} JoinedAppend(a: seq<Part>, b: seq<Part>)
    ensures Joined(a + b) == Joined(a) + Joined(b)
  {
    if a != [] {
      assert (a + b)[1..] == a[1..] + b;
      JoinedAppend(a[1..], b);
    } else {
      assert a + b == b;
    }
  }

  /** An object part without a text contributes nothing. */
  lemma TextlessPartIsIgnored(a: seq<Part>, b: seq<Part>)
    ensures Joined(a + [ObjectPart(None)] + b) == Joined(a + b)
  {
    JoinedAppend(a + [ObjectPart(None)], b);
    JoinedAppend(a, [ObjectPart(None)]);
    JoinedAppend(a, b);
  }

  /** Joining a single part gives exactly that part's contribution. */
  lemma ContributionIsJoinedOfOne(p: Part)
    ensures Joined([p]) == Contribution(p)
  {
    assert [p][1..] == [];
  }

  /** An object part whose text is the empty string contributes nothing, like one without text. */
  lemma EmptyTextPartIsIgnored(a: seq<Part>, b: seq<Part>)
    ensures Joined(a + [ObjectPart(Some(""))] + b) == Joined(a + [ObjectPart(None)] + b)
    ensures Joined(a + [ObjectPart(Some(""))] + b) == Joined(a + b)
  {
    JoinedAppend(a + [ObjectPart(Some(""))], b);
    JoinedAppend(a, [ObjectPart(Some(""))]);
    ContributionIsJoinedOfOne(ObjectPart(Some("")));
    JoinedAppend(a, b);
    TextlessPartIsIgnored(a, b);
  }

  /** A direct text "Hello" is returned as is. */
  lemma DirectTextExample()
    ensures Extract(Present(Envelope(Str("Hello"), None))) == Some("Hello")
  {
    TrimOfTrimmed("Hello");
  }

  /** Two string parts of the first candidate, with no top-level text, give their concatenation trimmed. */
  lemma TwoStringParts(x: string, y: string)
    requires !Blank(x + y)
    ensures Extract(Present(Envelope(Missing, Some([Candidate(Some([StringPart(x), StringPart(y)]), Missing)]))))
         == Some(Trim(x + y))
  {
    var parts := [StringPart(x), StringPart(y)];
    JoinedAppend([StringPart(x)], [StringPart(y)]);
    ContributionIsJoinedOfOne(StringPart(x));
    ContributionIsJoinedOfOne(StringPart(y));
    assert [StringPart(x)] + [StringPart(y)] == parts;
    PartsBeforeCandidateText(Missing, parts, Missing, []);
    assert [Candidate(Some(parts), Missing)] + [] == [Candidate(Some(parts), Missing)];
  }

  /** Candidate parts "Foo" and "Bar" give "FooBar". */
  lemma PartsExample()
    ensures Extract(Present(Envelope(Missing, Some([Candidate(Some([StringPart("Foo"), StringPart("Bar")]), Missing)]))))
         == Some("FooBar")
  {
    var foo, bar := "Foo", "Bar";
    assert IsTrimmed(foo + bar) && foo + bar != [] by {
      assert (foo + bar)[0] == 'F' && (foo + bar)[5] == 'r';
    }
    TrimOfTrimmed(foo + bar);
    TwoStringParts(foo, bar);
    assert foo + bar == "FooBar";
  }

  /** No direct text and an empty candidate list give null. */
  lemma NoTextExample()
    ensures Extract(Present(Envelope(Missing, Some([])))) == None
  {
  }
}
