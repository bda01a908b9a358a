/** The document renderer of utils.py: the solution file that wraps the code
    and the markdown notes rendered from the two records. */
module Documents {
  import opened Strings
  import opened Numerals
  import opened Models
  import Paths

  /** The header line of a solution file and the blank line after it. */
  function SolutionHeader(language: string): string {
    "# Solution - " + Upper(language) + "\n\n"
  }

  /** `create_solution_file(code, language)`: a header naming the language in
      upper case, a blank line, the code verbatim and a final line feed. */
  function SolutionFile(code: string, language: string): (doc: string)
    ensures |doc| == |SolutionHeader(language)| + |code| + 1
    ensures doc[..|SolutionHeader(language)|] == SolutionHeader(language)
    ensures doc[|doc| - 1] == '\n'
  {
    SolutionHeader(language) + code + "\n"
  }

  /** Reads the code back out of a solution file written for `language`. */
  function SolutionCode(doc: string, language: string): (code: Option<string>)
    ensures code.Some? ==> |code.value| + |SolutionHeader(language)| + 1 == |doc|
  {
    var header := SolutionHeader(language);
    if |doc| > |header| && doc[..|header|] == header && doc[|doc| - 1] == '\n' then
      Some(doc[|header|..|doc| - 1])
    else None
  }

  /** The code is embedded verbatim: it is read back unchanged. */
  lemma SolutionFileRoundTrip(code: string, language: string)
    ensures SolutionCode(SolutionFile(code, language), language) == Some(code)
  {
    var doc := SolutionFile(code, language);
    assert doc == SolutionHeader(language) + code + "\n";
    assert doc[|SolutionHeader(language)|..|doc| - 1] == code;
  }

  /** Every document the reader accepts is the solution file of the code it
      reads, so the wrapper is a bijection between code and well-formed files. */
  lemma SolutionCodeInverse(doc: string, language: string)
    requires SolutionCode(doc, language).Some?
    ensures SolutionFile(SolutionCode(doc, language).value, language) == doc
  {
    var header := SolutionHeader(language);
    var code := doc[|header|..|doc| - 1];
    assert doc == doc[..|header|] + code + [doc[|doc| - 1]];
    assert SolutionFile(code, language) == header + code + "\n";
  }

  const EasyBadge := "\U{1F7E2}"
  const MediumBadge := "\U{1F7E1}"
  const HardBadge := "\U{1F534}"

  const Badges: map<string, string> := map["easy" := EasyBadge, "medium" := MediumBadge, "hard" := HardBadge]

  /** The difficulty emoji: chosen by the lower-cased difficulty, with the
      medium emoji for anything that is not easy or hard. */
  function DifficultyBadge(difficulty: string): (emoji: string)
    ensures emoji == EasyBadge <==> Lower(difficulty) == "easy"
    ensures emoji == HardBadge <==> Lower(difficulty) == "hard"
    ensures emoji == MediumBadge <==> Lower(difficulty) != "easy" && Lower(difficulty) != "hard"
  {
    var key := Lower(difficulty);
    if key in Badges then Badges[key] else MediumBadge
  }

  /** The title line: `# <n>. <name>` for a truthy number, `# <name>` otherwise. */
  function NotesTitle(problem: ProblemDetails): string {
    "# " + (if Truthy(problem.problemNumber) then Decimal(problem.problemNumber.value) + ". " else "")
    + problem.problemName
  }

  /** Each tag in backticks, joined by a comma and a space. */
  function TagList(tags: seq<string>): string {
    Join(", ", seq(|tags|, i requires 0 <= i < |tags| => "`" + tags[i] + "`"))
  }

  /** Tags are listed in input order: one more tag adds `, ` and that tag in
      backticks at the end, or is the whole list when it is the first. */
  lemma TagListAppend(tags: seq<string>, tag: string)
    ensures TagList(tags + [tag])
         == if tags == [] then "`" + tag + "`" else TagList(tags) + ", " + "`" + tag + "`"
  {
    var quoted := seq(|tags|, i requires 0 <= i < |tags| => "`" + tags[i] + "`");
    var all := tags + [tag];
    assert seq(|all|, i requires 0 <= i < |all| => "`" + all[i] + "`") == quoted + ["`" + tag + "`"];
    JoinAppend(", ", quoted, "`" + tag + "`");
  }

  /** The line after the title: the badge, then the difficulty in upper case. */
  function DifficultyLine(difficulty: string): string {
    "\n\n**Difficulty:** " + DifficultyBadge(difficulty) + " " + Upper(difficulty)
  }

  function TagsLine(tags: seq<string>): string {
    "\n\n**Topics/Tags:** " + TagList(tags)
  }

  /** Everything before the first section header: title, difficulty, tags and
      a rule. */
  function NotesPreamble(problem: ProblemDetails): string {
    NotesTitle(problem) + DifficultyLine(problem.difficulty) + TagsLine(problem.tags) + "\n\n---\n\n"
  }

  /** `{i}. {item}` on a line of its own. */
  function NumberedLine(i: nat, item: string): string {
    Decimal(i) + ". " + item + "\n"
  }

  /** `- {item}` on a line of its own; the index is not shown. */
  function BulletLine(i: nat, item: string): string {
    "- " + item + "\n"
  }

  /** The block for example number `i`: a heading and its backtick-quoted
      input and output. */
  function ExampleBlock(i: nat, example: Example): string {
    "### Example " + Decimal(i) + "\n"
    + "**Input:** `" + example.input + "`\n"
    + "**Output:** `" + example.output + "`\n\n"
  }

  function NumberedList(items: seq<string>): string {
    Enumerate(items, NumberedLine, 1)
  }

  function BulletList(items: seq<string>): string {
    Enumerate(items, BulletLine, 1)
  }

  function ExampleList(examples: seq<Example>): string {
    Enumerate(examples, ExampleBlock, 1)
  }

  /** The section headers of the notes, in document order. */
  const NotesHeaders: seq<string> := [
    "## \U{1F4DD} Problem Statement",
    "### Input",
    "### Output",
    "## \U{1F4A1} Explanation",
    "## \U{1F511} Key Insights",
    "## \U{1F3AF} Hints",
    "## \U{1F50D} Algorithm",
    "## \U{1F4CB} Approach",
    "## \U{1F6B6} Step-by-Step Walkthrough",
    "## \U{1F4CA} Complexity Analysis",
    "### Time Complexity",
    "### Space Complexity",
    "## \U{26A0}\U{FE0F} Edge Cases",
    "## \U{1F4E5} Examples"
  ]

  /** The text that follows header `k` of `NotesHeaders`, up to the next one. */
  function NotesBody(problem: ProblemDetails, explanation: Explanation, k: nat): string
    requires k < |NotesHeaders|
  {
    if k == 0 then "\n\n" + problem.originalStatement + "\n\n"
    else if k == 1 then "\n" + problem.inputDescription + "\n\n"
    else if k == 2 then "\n" + problem.outputDescription + "\n\n---\n\n\n"
    else if k == 3 then "\n\n" + explanation.explanation + "\n\n---\n\n"
    else if k == 4 then "\n\n" + NumberedList(explanation.keyInsights) + "\n---\n\n"
    else if k == 5 then "\n\n" + NumberedList(explanation.hints) + "\n---\n\n"
    else if k == 6 then "\n\n```\n" + explanation.algorithm + "\n```\n\n---\n\n"
    else if k == 7 then "\n\n" + NumberedList(explanation.approach) + "\n---\n\n"
    else if k == 8 then "\n\n" + explanation.walkthrough + "\n\n---\n\n"
    else if k == 9 then "\n\n"
    else if k == 10 then "\n" + explanation.timeComplexity + "\n\n"
    else if k == 11 then "\n" + explanation.spaceComplexity + "\n\n---\n\n"
    else if k == 12 then "\n\n" + BulletList(explanation.edgeCases) + "\n---\n\n"
    else "\n\n" + ExampleList(problem.examples)
  }

  /** The footer; `generatedOn` stands for the formatted current time. */
  function NotesFooter(generatedOn: string): string {
    "---\n*Generated on " + generatedOn + "*\n"
  }

  /** A section of the notes: its header line and the text up to the next header. */
  datatype Section = Section(header: string, body: string)

  /** The notes sections: each header of `NotesHeaders` with its body. */
  function NotesSections(problem: ProblemDetails, explanation: Explanation): (sections: seq<Section>)
    ensures |sections| == |NotesHeaders|
    ensures forall k :: 0 <= k < |sections| ==> sections[k].header == NotesHeaders[k]
    ensures forall k :: 0 <= k < |sections| ==> sections[k].body == NotesBody(problem, explanation, k)
  {
    seq(|NotesHeaders|, k requires 0 <= k < |NotesHeaders| => Section(NotesHeaders[k], NotesBody(problem, explanation, k)))
  }

  /** Each header followed by its body, in order. */
  function Sections(sections: seq<Section>): string
    decreases |sections|
  {
    if sections == [] then "" else sections[0].header + sections[0].body + Sections(sections[1..])
  }

  lemma {:induction false} SectionsSplit(xs: seq<Section>, ys: seq<Section>)
    ensures Sections(xs + ys) == Sections(xs) + Sections(ys)
    decreases |xs|
  {
    if xs == [] {
      assert xs + ys == ys;
    } else {
      assert (xs + ys)[1..] == xs[1..] + ys;
      SectionsSplit(xs[1..], ys);
    }
  }

  /** The text of the sections before `k` is followed by section `k` and the
      sections after it. */
  lemma SectionsAt(sections: seq<Section>, k: nat)
    requires k < |sections|
    ensures Sections(sections) == Sections(sections[..k]) + Sections(sections[k..])
    ensures Sections(sections[k..])
         == sections[k].header + sections[k].body + Sections(sections[k + 1..])
  {
    assert sections == sections[..k] + sections[k..];
    SectionsSplit(sections[..k], sections[k..]);
    assert sections[k..][1..] == sections[k + 1..];
  }

  /** One more section lengthens the text by its header and body. */
  lemma SectionsGrow(sections: seq<Section>, k: nat)
    requires k < |sections|
    ensures Sections(sections[..k + 1]) == Sections(sections[..k]) + (sections[k].header + sections[k].body)
  {
    assert sections[..k + 1] == sections[..k] + [sections[k]];
    SectionsSplit(sections[..k], [sections[k]]);
    assert [sections[k]][1..] == [];
  }

  /** A document made of a preamble, sections in order and a closing part. */
  function Render(pre: string, sections: seq<Section>, post: string): string {
    pre + Sections(sections) + post
  }

  /** Where section `k` starts in `Render(pre, sections, post)`. */
  function Offset(pre: string, sections: seq<Section>, k: nat): nat
    requires k <= |sections|
  {
    |pre| + |Sections(sections[..k])|
  }

  /** Section `k` sits at its offset: its header, then its body, which ends
      where section `k + 1` starts. */
  lemma RenderSectionAt(pre: string, sections: seq<Section>, post: string, k: nat)
    requires k < |sections|
    ensures var doc := Render(pre, sections, post);
      var at := Offset(pre, sections, k);
      var next := Offset(pre, sections, k + 1);
      var header := sections[k].header;
      && at + |header| + |sections[k].body| == next
      && next <= |doc|
      && doc[at..at + |header|] == header
      && doc[at + |header|..next] == sections[k].body
  {
    SectionsAt(sections, k);
    SectionsGrow(sections, k);
    Located(pre, Sections(sections[..k]), sections[k].header, sections[k].body, Sections(sections[k + 1..]), post);
  }

  /** Where a header and body placed after `pre + before` end up. */
  lemma Located(pre: string, before: string, h: string, b: string, rest: string, post: string)
    ensures var doc := pre + (before + (h + b + rest)) + post;
      var at := |pre| + |before|;
      && at + |h| + |b| <= |doc|
      && doc[at..at + |h|] == h
      && doc[at + |h|..at + |h| + |b|] == b
  {
    var doc := pre + (before + (h + b + rest)) + post;
    var at := |pre| + |before|;
    assert forall i :: 0 <= i < |h| ==> doc[at + i] == h[i];
    assert forall i :: 0 <= i < |b| ==> doc[at + |h| + i] == b[i];
  }

  /** Section headers follow one another: header `i` ends before section `j`
      starts. */
  lemma OffsetsInOrder(pre: string, sections: seq<Section>, i: nat, j: nat)
    requires i < j <= |sections|
    ensures Offset(pre, sections, i) + |sections[i].header| + |sections[i].body| <= Offset(pre, sections, j)
  {
    assert sections[..j] == sections[..i + 1] + sections[i + 1..j];
    SectionsSplit(sections[..i + 1], sections[i + 1..j]);
    SectionsGrow(sections, i);
  }

  /** The preamble opens the document and the closing part ends it. */
  lemma RenderFrame(pre: string, sections: seq<Section>, post: string)
    ensures var doc := Render(pre, sections, post);
      && |pre| + |post| <= |doc|
      && doc[..|pre|] == pre
      && doc[|doc| - |post|..] == post
  {
  }

  /** Any stretch of the preamble is found at the same place in the document. */
  lemma RenderPreambleSlice(pre: string, sections: seq<Section>, post: string, i: nat, j: nat)
    requires i <= j <= |pre|
    ensures j <= |Render(pre, sections, post)|
    ensures Render(pre, sections, post)[i..j] == pre[i..j]
  {
    var doc := Render(pre, sections, post);
    assert doc[..|pre|] == pre;
    assert doc[i..j] == doc[..|pre|][i..j];
  }

  /** The slices of four consecutive parts. */
  lemma Parts(a: string, b: string, c: string, d: string)
    ensures (a + b + c + d)[..|a|] == a
    ensures (a + b + c + d)[|a|..|a| + |b|] == b
    ensures (a + b + c + d)[|a| + |b|..|a| + |b| + |c|] == c
  {
  }

  /** `create_notes(problem, explanation)`, with the timestamp passed in. */
  function CreateNotes(problem: ProblemDetails, explanation: Explanation, generatedOn: string): string {
    Render(NotesPreamble(problem), NotesSections(problem, explanation), NotesFooter(generatedOn))
  }

  /** Where the header of section `k` starts in the notes. */
  function HeaderOffset(problem: ProblemDetails, explanation: Explanation, k: nat): nat
    requires k <= |NotesHeaders|
  {
    Offset(NotesPreamble(problem), NotesSections(problem, explanation), k)
  }

  /** The notes start with the title line and end with the footer. */
  lemma NotesFrame(problem: ProblemDetails, explanation: Explanation, generatedOn: string)
    ensures var notes := CreateNotes(problem, explanation, generatedOn);
      var title := NotesTitle(problem);
      var footer := NotesFooter(generatedOn);
      && |title| + |footer| <= |notes|
      && notes[..|title|] == title
      && notes[|notes| - |footer|..] == footer
  {
    var pre := NotesPreamble(problem);
    var title := NotesTitle(problem);
    RenderFrame(pre, NotesSections(problem, explanation), NotesFooter(generatedOn));
    Parts(title, DifficultyLine(problem.difficulty), TagsLine(problem.tags), "\n\n---\n\n");
    assert pre[..|pre|][..|title|] == pre[..|title|];
  }

  /** Right after the title comes the difficulty line. */
  lemma NotesDifficultyLine(problem: ProblemDetails, explanation: Explanation, generatedOn: string)
    ensures var notes := CreateNotes(problem, explanation, generatedOn);
      var t := |NotesTitle(problem)|;
      var line := DifficultyLine(problem.difficulty);
      t + |line| <= |notes| && notes[t..t + |line|] == line
  {
    var title := NotesTitle(problem);
    var line := DifficultyLine(problem.difficulty);
    Parts(title, line, TagsLine(problem.tags), "\n\n---\n\n");
    RenderPreambleSlice(NotesPreamble(problem), NotesSections(problem, explanation), NotesFooter(generatedOn),
      |title|, |title| + |line|);
  }

  /** Right after the difficulty line comes the tags line. */
  lemma NotesTagsLine(problem: ProblemDetails, explanation: Explanation, generatedOn: string)
    ensures var notes := CreateNotes(problem, explanation, generatedOn);
      var t := |NotesTitle(problem) + DifficultyLine(problem.difficulty)|;
      var line := TagsLine(problem.tags);
      t + |line| <= |notes| && notes[t..t + |line|] == line
  {
    var title := NotesTitle(problem);
    var difficulty := DifficultyLine(problem.difficulty);
    var line := TagsLine(problem.tags);
    var head := title + difficulty;
    Parts(title, difficulty, line, "\n\n---\n\n");
    RenderPreambleSlice(NotesPreamble(problem), NotesSections(problem, explanation), NotesFooter(generatedOn),
      |head|, |head| + |line|);
  }

  /** The sections fill the document between the preamble and the closing
      part: the first starts where the preamble ends and the last ends where
      the closing part begins. */
  lemma RenderSpan(pre: string, sections: seq<Section>, post: string)
    ensures Offset(pre, sections, 0) == |pre|
    ensures Offset(pre, sections, |sections|) + |post| == |Render(pre, sections, post)|
  {
    assert sections[..0] == [];
    assert sections[..|sections|] == sections;
  }

  /** After the tags line comes the rule `---` between blank lines, and the
      first section header starts right after it. The last section ends
      where the footer starts. */
  lemma NotesRuleAndFooter(problem: ProblemDetails, explanation: Explanation, generatedOn: string)
    ensures var notes := CreateNotes(problem, explanation, generatedOn);
      var t := |NotesTitle(problem) + DifficultyLine(problem.difficulty) + TagsLine(problem.tags)|;
      && t + |"\n\n---\n\n"| == HeaderOffset(problem, explanation, 0)
      && notes[t..HeaderOffset(problem, explanation, 0)] == "\n\n---\n\n"
      && HeaderOffset(problem, explanation, |NotesHeaders|) + |NotesFooter(generatedOn)| == |notes|
  {
    var pre := NotesPreamble(problem);
    var head := NotesTitle(problem) + DifficultyLine(problem.difficulty) + TagsLine(problem.tags);
    RenderSpan(pre, NotesSections(problem, explanation), NotesFooter(generatedOn));
    assert pre == head + "\n\n---\n\n";
    assert pre[|head|..|pre|] == "\n\n---\n\n";
    RenderPreambleSlice(pre, NotesSections(problem, explanation), NotesFooter(generatedOn), |head|, |pre|);
  }

  /** The section headers appear in the fixed order: header `k` starts at
      `HeaderOffset(k)`, its body follows it, and the next header starts right
      after that body. User text is embedded raw, so a header may occur
      elsewhere too; this locates the occurrences the template writes. */
  lemma NotesSectionAt(problem: ProblemDetails, explanation: Explanation, generatedOn: string, k: nat)
    requires k < |NotesHeaders|
    ensures var notes := CreateNotes(problem, explanation, generatedOn);
      var at := HeaderOffset(problem, explanation, k);
      var next := HeaderOffset(problem, explanation, k + 1);
      var header := NotesHeaders[k];
      && at + |header| + |NotesBody(problem, explanation, k)| == next
      && next <= |notes|
      && notes[at..at + |header|] == header
      && notes[at + |header|..next] == NotesBody(problem, explanation, k)
  {
    RenderSectionAt(NotesPreamble(problem), NotesSections(problem, explanation), NotesFooter(generatedOn), k);
  }

  /** Headers come in the order of `NotesHeaders`: each one ends before the
      next one starts. */
  lemma NotesHeadersInOrder(problem: ProblemDetails, explanation: Explanation, i: nat, j: nat)
    requires i < j < |NotesHeaders|
    ensures HeaderOffset(problem, explanation, i) + |NotesHeaders[i]| <= HeaderOffset(problem, explanation, j)
  {
    OffsetsInOrder(NotesPreamble(problem), NotesSections(problem, explanation), i, j);
  }

  /** The third of four parts of a text found at `at` in `doc` lies at its
      own offset there. */
  lemma PartOfBody(doc: string, at: nat, a: string, b: string, c: string, d: string)
    requires at + |a + b + c + d| <= |doc| && doc[at..at + |a + b + c + d|] == a + b + c + d
    ensures at + |a| + |b| + |c| <= |doc|
    ensures doc[at + |a| + |b|..at + |a| + |b| + |c|] == c
  {
    var body := a + b + c + d;
    var i := |a| + |b|;
    var w := doc[at..at + |body|];
    assert w[i..i + |c|] == c;
    assert forall t :: 0 <= t < |c| ==> doc[at + i + t] == w[i + t] == c[t];
    assert doc[at + i..at + i + |c|] == c;
  }

  /** In a text holding a blank line, a list enumerated from 1 and a closing
      part, item `k` of the list, rendered with number `k + 1`, follows the
      items before it. */
  lemma ListItemInBody<T>(doc: string, at: nat, items: seq<T>, line: (nat, T) -> string, tail: string, k: nat)
    requires k < |items|
    requires var body := "\n\n" + Enumerate(items, line, 1) + tail;
      at + |body| <= |doc| && doc[at..at + |body|] == body
    ensures var o := at + 2 + |Enumerate(items[..k], line, 1)|;
      var item := line(k + 1, items[k]);
      o + |item| <= |doc| && doc[o..o + |item|] == item
  {
    EnumerateAt(items, line, 1, k);
    var before := Enumerate(items[..k], line, 1);
    var item := line(k + 1, items[k]);
    var rest := Enumerate(items[k + 1..], line, k + 2) + tail;
    assert "\n\n" + Enumerate(items, line, 1) + tail == "\n\n" + before + item + rest;
    PartOfBody(doc, at, "\n\n", before, item, rest);
  }

  /** Where the body of section `k` starts in the notes. */
  function BodyOffset(problem: ProblemDetails, explanation: Explanation, k: nat): nat
    requires k < |NotesHeaders|
  {
    HeaderOffset(problem, explanation, k) + |NotesHeaders[k]|
  }

  /** The body of section `k` sits at its offset in the notes. */
  lemma NotesBodyAt(problem: ProblemDetails, explanation: Explanation, generatedOn: string, k: nat)
    requires k < |NotesHeaders|
    ensures var notes := CreateNotes(problem, explanation, generatedOn);
      var body := NotesBody(problem, explanation, k);
      var at := BodyOffset(problem, explanation, k);
      at + |body| <= |notes| && notes[at..at + |body|] == body
  {
    NotesSectionAt(problem, explanation, generatedOn, k);
  }

  /** Item `k` of a list enumerated from 1 in the body of section `s` of the
      notes lies after the items before it. */
  lemma NotesListItemAt<T>(problem: ProblemDetails, explanation: Explanation, generatedOn: string, s: nat,
                           items: seq<T>, line: (nat, T) -> string, tail: string, k: nat)
    requires s < |NotesHeaders| && k < |items|
    requires NotesBody(problem, explanation, s) == "\n\n" + Enumerate(items, line, 1) + tail
    ensures var notes := CreateNotes(problem, explanation, generatedOn);
      var at := BodyOffset(problem, explanation, s) + 2 + |Enumerate(items[..k], line, 1)|;
      var item := line(k + 1, items[k]);
      at + |item| <= |notes| && notes[at..at + |item|] == item
  {
    NotesBodyAt(problem, explanation, generatedOn, s);
    ListItemInBody(CreateNotes(problem, explanation, generatedOn), BodyOffset(problem, explanation, s),
      items, line, tail, k);
  }

  /** The bodies of the list sections: a blank line, the list and, except
      for the last section, a rule. */
  lemma KeyInsightsBody(problem: ProblemDetails, explanation: Explanation)
    ensures NotesBody(problem, explanation, 4) == "\n\n" + Enumerate(explanation.keyInsights, NumberedLine, 1) + "\n---\n\n"
  {
  }

  lemma HintsBody(problem: ProblemDetails, explanation: Explanation)
    ensures NotesBody(problem, explanation, 5) == "\n\n" + Enumerate(explanation.hints, NumberedLine, 1) + "\n---\n\n"
  {
  }

  lemma ApproachBody(problem: ProblemDetails, explanation: Explanation)
    ensures NotesBody(problem, explanation, 7) == "\n\n" + Enumerate(explanation.approach, NumberedLine, 1) + "\n---\n\n"
  {
  }

  lemma EdgeCasesBody(problem: ProblemDetails, explanation: Explanation)
    ensures NotesBody(problem, explanation, 12) == "\n\n" + Enumerate(explanation.edgeCases, BulletLine, 1) + "\n---\n\n"
  {
  }

  /** The Examples section is the last one and has no closing rule; the
      empty tail lets it share `NotesListItemAt` with the other lists. */
  lemma ExamplesBody(problem: ProblemDetails, explanation: Explanation)
    ensures NotesBody(problem, explanation, 13) == "\n\n" + Enumerate(problem.examples, ExampleBlock, 1) + ""
  {
    assert NotesBody(problem, explanation, 13) + "" == NotesBody(problem, explanation, 13);
  }

  /** Key insight `k` is the line `<k+1>. <insight>` of the Key Insights
      section, after the insights before it. */
  lemma NotesKeyInsightAt(problem: ProblemDetails, explanation: Explanation, generatedOn: string, k: nat)
    requires k < |explanation.keyInsights|
    ensures var notes := CreateNotes(problem, explanation, generatedOn);
      var items := explanation.keyInsights;
      var at := BodyOffset(problem, explanation, 4) + 2 + |NumberedList(items[..k])|;
      var item := NumberedLine(k + 1, items[k]);
      at + |item| <= |notes| && notes[at..at + |item|] == item
  {
    KeyInsightsBody(problem, explanation);
    NotesListItemAt(problem, explanation, generatedOn, 4, explanation.keyInsights, NumberedLine, "\n---\n\n", k);
  }

  /** Hint `k` is the line `<k+1>. <hint>` of the Hints section. */
  lemma NotesHintAt(problem: ProblemDetails, explanation: Explanation, generatedOn: string, k: nat)
    requires k < |explanation.hints|
    ensures var notes := CreateNotes(problem, explanation, generatedOn);
      var items := explanation.hints;
      var at := BodyOffset(problem, explanation, 5) + 2 + |NumberedList(items[..k])|;
      var item := NumberedLine(k + 1, items[k]);
      at + |item| <= |notes| && notes[at..at + |item|] == item
  {
    HintsBody(problem, explanation);
    NotesListItemAt(problem, explanation, generatedOn, 5, explanation.hints, NumberedLine, "\n---\n\n", k);
  }

  /** Approach step `k` is the line `<k+1>. <step>` of the Approach section. */
  lemma NotesApproachStepAt(problem: ProblemDetails, explanation: Explanation, generatedOn: string, k: nat)
    requires k < |explanation.approach|
    ensures var notes := CreateNotes(problem, explanation, generatedOn);
      var items := explanation.approach;
      var at := BodyOffset(problem, explanation, 7) + 2 + |NumberedList(items[..k])|;
      var item := NumberedLine(k + 1, items[k]);
      at + |item| <= |notes| && notes[at..at + |item|] == item
  {
    ApproachBody(problem, explanation);
    NotesListItemAt(problem, explanation, generatedOn, 7, explanation.approach, NumberedLine, "\n---\n\n", k);
  }

  /** Edge case `k` is the bullet `- <case>` of the Edge Cases section. */
  lemma NotesEdgeCaseAt(problem: ProblemDetails, explanation: Explanation, generatedOn: string, k: nat)
    requires k < |explanation.edgeCases|
    ensures var notes := CreateNotes(problem, explanation, generatedOn);
      var items := explanation.edgeCases;
      var at := BodyOffset(problem, explanation, 12) + 2 + |BulletList(items[..k])|;
      var item := BulletLine(k + 1, items[k]);
      at + |item| <= |notes| && notes[at..at + |item|] == item
  {
    EdgeCasesBody(problem, explanation);
    NotesListItemAt(problem, explanation, generatedOn, 12, explanation.edgeCases, BulletLine, "\n---\n\n", k);
  }

  /** Example `k` is the block `### Example <k+1>` of the Examples section. */
  lemma NotesExampleAt(problem: ProblemDetails, explanation: Explanation, generatedOn: string, k: nat)
    requires k < |problem.examples|
    ensures var notes := CreateNotes(problem, explanation, generatedOn);
      var items := problem.examples;
      var at := BodyOffset(problem, explanation, 13) + 2 + |ExampleList(items[..k])|;
      var item := ExampleBlock(k + 1, items[k]);
      at + |item| <= |notes| && notes[at..at + |item|] == item
  {
    ExamplesBody(problem, explanation);
    NotesListItemAt(problem, explanation, generatedOn, 13, problem.examples, ExampleBlock, "", k);
  }

  /** A numbered list counts from 1 in input order: item `k` is the line
      `"<k + 1>. <item>"`, after all earlier items and before all later ones. */
  lemma NumberedItemAt(items: seq<string>, k: nat)
    requires k < |items|
    ensures NumberedList(items)
         == NumberedList(items[..k]) + (Decimal(k + 1) + ". " + items[k] + "\n")
            + Enumerate(items[k + 1..], NumberedLine, k + 2)
  {
    EnumerateAt(items, NumberedLine, 1, k);
  }

  /** A bulleted list keeps input order: item `k` is the line `"- <item>"`. */
  lemma BulletItemAt(items: seq<string>, k: nat)
    requires k < |items|
    ensures BulletList(items)
         == BulletList(items[..k]) + ("- " + items[k] + "\n")
            + Enumerate(items[k + 1..], BulletLine, k + 2)
  {
    EnumerateAt(items, BulletLine, 1, k);
  }

  /** Example `k` becomes "Example k+1" with its input and output in
      backticks, in input order. */
  lemma ExampleAt(examples: seq<Example>, k: nat)
    requires k < |examples|
    ensures ExampleList(examples)
         == ExampleList(examples[..k])
            + ("### Example " + Decimal(k + 1) + "\n"
               + "**Input:** `" + examples[k].input + "`\n"
               + "**Output:** `" + examples[k].output + "`\n\n")
            + Enumerate(examples[k + 1..], ExampleBlock, k + 2)
  {
    EnumerateAt(examples, ExampleBlock, 1, k);
  }

  /** The title is `# <n>. <name>` exactly when the number is truthy, and for
      a stripped one-line name the text after `# ` splits back into the same
      number and name. */
  lemma NotesTitleCarriesNumber(problem: ProblemDetails)
    ensures Truthy(problem.problemNumber) ==>
      NotesTitle(problem) == "# " + Decimal(problem.problemNumber.value) + ". " + problem.problemName
    ensures !Truthy(problem.problemNumber) ==> NotesTitle(problem) == "# " + problem.problemName
    ensures (Truthy(problem.problemNumber) && problem.problemName != []
             && Stripped(problem.problemName) && '\n' !in problem.problemName) ==>
      Paths.ExtractProblemNumber(NotesTitle(problem)[2..], None)
      == (problem.problemNumber, problem.problemName)
  {
    if Truthy(problem.problemNumber) {
      var n := problem.problemNumber.value;
      assert NotesTitle(problem)[2..] == Decimal(n) + ". " + problem.problemName;
      if problem.problemName != [] && Stripped(problem.problemName) && '\n' !in problem.problemName {
        Paths.NumberedNameRoundTrip(n, problem.problemName);
      }
    }
  }

  /** The badge depends only on the difficulty's lower-case form. */
  lemma DifficultyBadgeIgnoresCase(d1: string, d2: string)
    requires Lower(d1) == Lower(d2)
    ensures DifficultyBadge(d1) == DifficultyBadge(d2)
  {
  }
}
