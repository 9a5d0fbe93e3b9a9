/**
 * The single-shot prompt (SINGLE_SHOT_PROMPT): a fixed instruction text with the
 * topic and the word count spliced in.
 */
module BlogPrompt {
  import opened Wrappers

  /** The word count used when the request gives none. */
  const DefaultWordCount: string := "1000"

  /**
   * The request's `wordCount`, which nothing checks: omitted (undefined); given,
   * carried as the text a template literal renders it to (1500 renders as "1500",
   * null as "null", `{}` as "[object Object]"); or unrenderable, an object whose
   * conversion to a string throws a TypeError (`{"toString": 0}`), carried as that
   * error's message.
   */
  datatype WordCount = Omitted | Given(shown: string) | Unrenderable(message: string)

  /**
   * `${wordCount}` with the default parameter value 1000 applied when omitted;
   * `Failed` with the TypeError's message when the conversion throws.
   */
  function Rendered(w: WordCount): Result<string> {
    match w
    case Omitted => Ok(DefaultWordCount)
    case Given(s) => Ok(s)
    case Unrenderable(m) => Failed(m)
  }

  const Opening: string := "You are an expert blog writer.\n\n"

  /** The line naming the topic, between double quotes. */
  function TopicLine(topic: string): string {
    "Write a complete blog post on the topic: \"" + topic + "\".\n"
  }

  const Format: string :=
    "Your output must strictly follow this Markdown format:\n\n"
    + "# {Blog Title}\n\n"
    + "## Introduction\n(2\U{2013}3 paragraphs)\n\n"
    + "## Table of Contents\n(Numbered list of sections)\n\n"
    + "## Section 1: {Title}\n(2\U{2013}3 paragraphs with bullet points if useful)\n\n"
    + "## Section 2: {Title}\n(2\U{2013}3 paragraphs, may include subsections)\n\n"
    + "## Section 3: {Title}\n(2\U{2013}3 paragraphs, comparisons, best practices, or pitfalls)\n\n"
    + "## Conclusion\n(Summarize key points, end with insights or call-to-action)\n\n"
    + "Rules:\n"

  /** The length rule, asking for about `words` words. */
  function LengthRule(words: string): string {
    "- Length: ~" + words + " words"
  }

  const Closing: string :=
    "\n- Always use proper Markdown headers (#, ##, ###)\n"
    + "- Do not include anything outside the blog content."

  /** The `n` characters of `hay` from position `i`. */
  function Window(hay: string, i: nat, n: nat): string
    requires i + n <= |hay|
  {
    hay[i..i + n]
  }

  /** `needle` appears somewhere in `hay`. */
  ghost predicate Occurs(needle: string, hay: string) {
    exists i: nat :: i + |needle| <= |hay| && Window(hay, i, |needle|) == needle
  }

  lemma OccursBetween(pre: string, needle: string, post: string)
    ensures Occurs(needle, pre + needle + post)
  {
    var hay := pre + needle + post;
    assert Window(hay, |pre|, |needle|) == needle;
  }

  /** Equal strings cut at the same place around pieces of the same length have equal pieces. */
  lemma MiddleDetermined(pre: string, x: string, y: string, post: string)
    requires pre + x + post == pre + y + post
    ensures x == y
  {
    var h1, h2 := pre + x + post, pre + y + post;
    assert |x| == |y|;
    assert h1[|pre|..|pre| + |x|] == x;
    assert h2[|pre|..|pre| + |y|] == y;
  }

  /** `hay` ends with `tail`. */
  predicate EndsWith(hay: string, tail: string) {
    |tail| <= |hay| && hay[|hay| - |tail|..] == tail
  }

  /** The five pieces of the prompt, in order. */
  function Assemble(a: string, b: string, c: string, d: string, e: string): (r: string)
    ensures Occurs(b, r) && Occurs(d, r)
    ensures a <= r && EndsWith(r, e)
  {
    OccursBetween(a, b, c + d + e);
    OccursBetween(a + b + c, d, e);
    assert a + b + (c + d + e) == a + b + c + d + e;
    a + b + c + d + e
  }

  lemma AssembleDeterminesSecond(a: string, b1: string, b2: string, c: string, d: string, e: string)
    requires Assemble(a, b1, c, d, e) == Assemble(a, b2, c, d, e)
    ensures b1 == b2
  {
    assert a + b1 + c + d + e == a + b1 + (c + d + e);
    assert a + b2 + c + d + e == a + b2 + (c + d + e);
    MiddleDetermined(a, b1, b2, c + d + e);
  }

  lemma AssembleDeterminesFourth(a: string, b: string, c: string, d1: string, d2: string, e: string)
    requires Assemble(a, b, c, d1, e) == Assemble(a, b, c, d2, e)
    ensures d1 == d2
  {
    MiddleDetermined(a + b + c, d1, d2, e);
  }

  /**
   * SINGLE_SHOT_PROMPT(topic, wordCount): the instruction text. It opens with the
   * writer's role, quotes the topic verbatim, asks for `~<wordCount> words`, and
   * closes with the rule against anything outside the blog content. Building it
   * throws, with the conversion's message, when the word count cannot be rendered.
   */
  function SingleShotPrompt(topic: string, wordCount: WordCount): (r: Result<string>)
    ensures r.Failed? <==> wordCount.Unrenderable?
    ensures r.Failed? ==> r.message == wordCount.message
    ensures r.Ok? ==> Occurs(TopicLine(topic), r.value)
    ensures r.Ok? ==> Occurs(LengthRule(Rendered(wordCount).value), r.value)
    ensures r.Ok? ==> Opening <= r.value && EndsWith(r.value, Closing)
  {
    match Rendered(wordCount)
    case Failed(m) => Failed(m)
    case Ok(words) => Ok(Assemble(Opening, TopicLine(topic), Format, LengthRule(words), Closing))
  }

  /** With the same renderable word count, different topics give different prompts. */
  lemma PromptDeterminesTopic(t1: string, t2: string, w: WordCount)
    requires SingleShotPrompt(t1, w) == SingleShotPrompt(t2, w)
    ensures !w.Unrenderable? ==> t1 == t2
  {
    if !w.Unrenderable? {
      var words := LengthRule(Rendered(w).value);
      AssembleDeterminesSecond(Opening, TopicLine(t1), TopicLine(t2), Format, words, Closing);
      MiddleDetermined("Write a complete blog post on the topic: \"", t1, t2, "\".\n");
    }
  }

  /**
   * With the same topic, the outcome of building the prompt fixes the rendering of
   * the word count: the same text, or the same conversion failure.
   */
  lemma PromptDeterminesWordCount(t: string, w1: WordCount, w2: WordCount)
    requires SingleShotPrompt(t, w1) == SingleShotPrompt(t, w2)
    ensures Rendered(w1) == Rendered(w2)
  {
    if !w1.Unrenderable? && !w2.Unrenderable? {
      var s1, s2 := Rendered(w1).value, Rendered(w2).value;
      AssembleDeterminesFourth(Opening, TopicLine(t), Format, LengthRule(s1), LengthRule(s2), Closing);
      MiddleDetermined("- Length: ~", s1, s2, " words");
    }
  }

  /** Omitting the word count asks for the same prompt as giving 1000. */
  lemma OmittedMeansThousand(topic: string)
    ensures SingleShotPrompt(topic, Omitted) == SingleShotPrompt(topic, Given("1000"))
  {
    assert Rendered(Omitted) == Rendered(Given("1000"));
  }

  /** A given word count other than 1000 asks for a different prompt than omitting it. */
  lemma GivenOtherThanThousand(topic: string, shown: string)
    requires shown != "1000"
    ensures SingleShotPrompt(topic, Given(shown)) != SingleShotPrompt(topic, Omitted)
  {
    if SingleShotPrompt(topic, Given(shown)) == SingleShotPrompt(topic, Omitted) {
      PromptDeterminesWordCount(topic, Given(shown), Omitted);
    }
  }
}
