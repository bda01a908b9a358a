/** The path formatter of utils.py: the problem number split off a name, the
    language-to-extension table, the folder and file name of a solution, and
    the notes file name the callers derive from it. */
module Paths {
  import opened Strings
  import opened Numerals
  import opened Models

  /** `re.match(r"^(\d+)\.\s*(.+)$", s)` can succeed on `s` with group 1
      being `s[..d]` and the `\s*` run being the `j` characters after the dot.
      Group 2 is everything after that run: `.` (no DOTALL flag) needs it to be
      non-empty and free of line feeds. `$` matches at the end of `s`; its other
      position, just before a final line feed, never arises because the text
      has been stripped and a line feed is whitespace. */
  ghost predicate NumberedNameMatch(s: string, d: nat, j: nat) {
    && 1 <= d
    && d + 1 + j < |s|
    && AllDigits(s[..d])
    && s[d] == '.'
    && AllSpace(s[d + 1..d + 1 + j])
    && '\n' !in s[d + 1 + j..]
  }

  /** The split the backtracking engine reports first: the greedy `\s*` takes
      the whole whitespace run after the dot. */
  ghost predicate GreedyMatch(s: string, d: nat, j: nat) {
    NumberedNameMatch(s, d, j) && !IsSpace(s[d + 1 + j])
  }

  /** No line feed at index `i` or after it. */
  predicate LineFeedFreeFrom(s: string, i: nat) {
    forall k :: i <= k < |s| ==> s[k] != '\n'
  }

  lemma LineFeedFreeSuffix(s: string, i: nat)
    requires i <= |s|
    ensures LineFeedFreeFrom(s, i) <==> '\n' !in s[i..]
  {
    assert forall k :: 0 <= k < |s| - i ==> s[i..][k] == s[i + k];
  }

  /** The regular-expression step of `extract_problem_number` on stripped
      text: the value of group 1 and group 2 as matched. The `\s*` is greedy,
      so group 2 starts at the first character after the dot that is not
      whitespace; `.+$` then needs at least one character and no line feed
      from there to the end. */
  function ParseNumberedName(s: string): (r: Option<(nat, string)>)
    ensures r.Some? ==> 1 <= LeadingDigits(s) < |s| && s[LeadingDigits(s)] == '.'
  {
    var d := LeadingDigits(s);
    if d == 0 || d == |s| || s[d] != '.' then None
    else
      var g := d + 1 + SpacesFrom(s, d + 1);
      if g == |s| || !LineFeedFreeFrom(s, g) then None
      else
        LeadingDigitsPrefix(s);
        Some((DecimalValue(s[..d]), s[g..]))
  }

  /** Group 2 is non-empty, starts with a non-whitespace character and has
      no line feed. */
  lemma ParseNumberedNameGroup(s: string)
    requires ParseNumberedName(s).Some?
    ensures var group := ParseNumberedName(s).value.1;
      group != [] && !IsSpace(group[0]) && '\n' !in group
  {
    var d := LeadingDigits(s);
    var g := d + 1 + SpacesFrom(s, d + 1);
    SpacesFromSpan(s, d + 1);
    assert s[g..][0] == s[g];
    LineFeedFreeSuffix(s, g);
  }

  /** The accepting case of `ParseNumberedName`. */
  lemma ParseNumberedNameAccepts(s: string)
    requires var d := LeadingDigits(s);
      && 1 <= d < |s| && s[d] == '.'
      && d + 1 + SpacesFrom(s, d + 1) < |s|
      && LineFeedFreeFrom(s, d + 1 + SpacesFrom(s, d + 1))
    ensures ParseNumberedName(s).Some?
  {
  }

  /** What an accepting parse returns. */
  lemma ParseNumberedNameValue(s: string)
    requires ParseNumberedName(s).Some?
    ensures var d := LeadingDigits(s);
      && AllDigits(s[..d])
      && ParseNumberedName(s) == Some((DecimalValue(s[..d]), s[d + 1 + SpacesFrom(s, d + 1)..]))
  {
    LeadingDigitsPrefix(s);
  }

  /** Any match fixes the digit run: it is the whole leading digit run, and
      the whitespace it skips is part of the whitespace after the dot. */
  lemma MatchDigits(s: string, d: nat, j: nat)
    requires NumberedNameMatch(s, d, j)
    ensures d == LeadingDigits(s)
    ensures j <= SpacesFrom(s, d + 1)
  {
    forall k | 0 <= k < d
      ensures IsDigit(s[k])
    {
      assert s[..d][k] == s[k];
    }
    LeadingDigitsUnique(s, d);
    MatchSpaces(s, d, j);
    SpacesFromSpan(s, d + 1);
  }

  /** The whitespace run and group 2 of a match, by position. */
  lemma MatchSpaces(s: string, d: nat, j: nat)
    requires NumberedNameMatch(s, d, j)
    ensures forall k :: d + 1 <= k < d + 1 + j ==> IsSpace(s[k])
    ensures LineFeedFreeFrom(s, d + 1 + j)
  {
    forall k | d + 1 <= k < d + 1 + j
      ensures IsSpace(s[k])
    {
      assert s[d + 1..d + 1 + j][k - d - 1] == s[k];
    }
    LineFeedFreeSuffix(s, d + 1 + j);
  }

  /** The greedy whitespace run covers the run of any match and, in stripped
      text, stops before the end. */
  lemma GroupEnd(s: string, d: nat, j: nat)
    requires Stripped(s) && NumberedNameMatch(s, d, j)
    ensures var g := d + 1 + SpacesFrom(s, d + 1);
      && d == LeadingDigits(s)
      && d + 1 + j <= g < |s|
      && LineFeedFreeFrom(s, g)
  {
    MatchDigits(s, d, j);
    MatchSpaces(s, d, j);
    SpacesFromSpan(s, d + 1);
    assert d + 1 + SpacesFrom(s, d + 1) < |s| by {
      assert !IsSpace(s[|s| - 1]);
    }
  }

  /** In stripped text, any match means the parse succeeds. */
  lemma MatchGivesParse(s: string, d: nat, j: nat)
    requires Stripped(s) && NumberedNameMatch(s, d, j)
    ensures ParseNumberedName(s).Some?
  {
    GroupEnd(s, d, j);
    ParseNumberedNameAccepts(s);
  }

  /** The greedy split is the one the parse returns. */
  lemma GreedyMatchGivesParse(s: string, d: nat, j: nat)
    requires GreedyMatch(s, d, j)
    ensures ParseNumberedName(s) == Some((DecimalValue(s[..d]), s[d + 1 + j..]))
  {
    MatchDigits(s, d, j);
    MatchSpaces(s, d, j);
    SpacesFromUnique(s, d + 1, j);
    ParseNumberedNameAccepts(s);
    ParseNumberedNameValue(s);
  }

  /** `ParseNumberedName` succeeds on stripped text exactly when the regular
      expression matches, a successful parse has a greedy split, and the
      greedy split's groups are what it returns. */
  lemma ParseNumberedNameIsRegexMatch(s: string)
    requires Stripped(s)
    ensures ParseNumberedName(s).Some? <==> exists d: nat, j: nat :: NumberedNameMatch(s, d, j)
    ensures ParseNumberedName(s).Some? <==> exists d: nat, j: nat :: GreedyMatch(s, d, j)
    ensures forall d: nat, j: nat :: GreedyMatch(s, d, j) ==>
      ParseNumberedName(s) == Some((DecimalValue(s[..d]), s[d + 1 + j..]))
  {
    if ParseNumberedName(s).Some? {
      var d := LeadingDigits(s);
      var w := SpacesFrom(s, d + 1);
      LeadingDigitsSpan(s);
      SpacesFromSpan(s, d + 1);
      AllDigitsPrefix(s, d);
      AllSpaceSlice(s, d + 1, d + 1 + w);
      LineFeedFreeSuffix(s, d + 1 + w);
      assert GreedyMatch(s, d, w);
    }
    forall d: nat, j: nat | NumberedNameMatch(s, d, j)
      ensures ParseNumberedName(s).Some?
    {
      MatchGivesParse(s, d, j);
    }
    forall d: nat, j: nat | GreedyMatch(s, d, j)
      ensures ParseNumberedName(s) == Some((DecimalValue(s[..d]), s[d + 1 + j..]))
    {
      GreedyMatchGivesParse(s, d, j);
    }
  }

  /** Matches differ only in how much of the whitespace after the dot `\s*`
      takes, so every match strips group 2 to what the greedy split, which
      takes the whole run, strips it to. */
  lemma MatchStripsLikeGreedy(s: string, d: nat, j: nat)
    requires NumberedNameMatch(s, d, j)
    ensures Strip(s[d + 1 + j..]) == Strip(s[d + 1 + SpacesFrom(s, d + 1)..])
  {
    MatchDigits(s, d, j);
    StripWithinSpaceRun(s, d + 1, d + 1 + j);
  }

  /** `extract_problem_number(problem_name, problem_number)`. A truthy number
      is returned with the name untouched; otherwise (absent or zero) the
      stripped name is matched against `<digits>.<whitespace><name>`, and when
      it does not match, no number and the original, unstripped name come
      back. */
  function ExtractProblemNumber(problemName: string, problemNumber: Option<nat>): (r: (Option<nat>, string))
    ensures Truthy(problemNumber) ==> r == (problemNumber, problemName)
    ensures r.0.None? ==> r.1 == problemName
  {
    if Truthy(problemNumber) then (problemNumber, problemName)
    else
      match ParseNumberedName(Strip(problemName))
      case Some((n, group)) => (Some(n), Strip(group))
      case None => (None, problemName)
  }

  /** Without a truthy number, a number is extracted exactly when the regular
      expression matches the stripped name. */
  lemma ExtractProblemNumberMatches(problemName: string, problemNumber: Option<nat>)
    requires !Truthy(problemNumber)
    ensures ExtractProblemNumber(problemName, problemNumber).0.Some?
        <==> exists d: nat, j: nat :: NumberedNameMatch(Strip(problemName), d, j)
  {
    StripSpec(problemName);
    ParseNumberedNameIsRegexMatch(Strip(problemName));
  }

  /** What is extracted: the value of group 1 and group 2 stripped, read off
      the greedy split of the stripped name. */
  lemma ExtractProblemNumberGroups(problemName: string, problemNumber: Option<nat>)
    requires !Truthy(problemNumber)
    ensures var s := Strip(problemName);
      var r := ExtractProblemNumber(problemName, problemNumber);
      forall d: nat, j: nat :: GreedyMatch(s, d, j) ==>
        r == (Some(DecimalValue(s[..d])), Strip(s[d + 1 + j..]))
  {
    StripSpec(problemName);
    ParseNumberedNameIsRegexMatch(Strip(problemName));
  }

  /** An extracted name is non-empty, stripped and on one line. */
  lemma ExtractProblemNumberNameShape(problemName: string, problemNumber: Option<nat>)
    requires !Truthy(problemNumber)
    ensures var r := ExtractProblemNumber(problemName, problemNumber);
      r.0.Some? ==> r.1 != [] && Stripped(r.1) && '\n' !in r.1
  {
    var s := Strip(problemName);
    if ParseNumberedName(s).Some? {
      var group := ParseNumberedName(s).value.1;
      ParseNumberedNameGroup(s);
      StripNonSpaceStart(group);
    }
  }

  /** A heading of the form `"<n>. <name>"` splits back into `n` and `name`
      whenever the name is itself stripped, non-empty and on one line. */
  lemma NumberedNameRoundTrip(n: nat, name: string)
    requires name != [] && Stripped(name) && '\n' !in name
    ensures ExtractProblemNumber(Decimal(n) + ". " + name, None) == (Some(n), name)
  {
    var s := Decimal(n) + ". " + name;
    NumberedHeadingMatch(n, name);
    StrippedIsFixed(s);
    GreedyMatchGivesParse(s, |Decimal(n)|, 1);
    StrippedIsFixed(name);
  }

  /** The heading is stripped, and its greedy split is the numeral, the dot,
      one space and the name. */
  lemma NumberedHeadingMatch(n: nat, name: string)
    requires name != [] && Stripped(name) && '\n' !in name
    ensures var s := Decimal(n) + ". " + name;
      var d := |Decimal(n)|;
      && Stripped(s) && GreedyMatch(s, d, 1)
      && s[..d] == Decimal(n) && s[d + 2..] == name
  {
    var digits := Decimal(n);
    var s := digits + ". " + name;
    var d := |digits|;
    assert s[0] == digits[0];
    assert s[|s| - 1] == name[|name| - 1];
    assert s[..d] == digits;
    assert s[d] == '.';
    assert s[d + 2..] == name;
    assert s[d + 2] == name[0];
    assert s[d + 1..d + 2] == " ";
  }

  /** A numbered heading is split; a zero number counts as absent; a heading
      without the numeral prefix comes back unchanged. */
  lemma ExtractProblemNumberExamples()
    ensures ExtractProblemNumber("1. Two Sum", None) == (Some(1), "Two Sum")
    ensures ExtractProblemNumber("Two Sum", Some(0)) == (None, "Two Sum")
    ensures ExtractProblemNumber("Two Sum", Some(7)) == (Some(7), "Two Sum")
  {
    assert Decimal(1) == "1";
    assert Decimal(1) + ". " + "Two Sum" == "1. Two Sum";
    NumberedNameRoundTrip(1, "Two Sum");
    StrippedIsFixed("Two Sum");
    LeadingDigitsUnique("Two Sum", 0);
  }

  /** The known language tags and their file extensions. */
  const Extensions: map<string, string> := map[
    "python" := "py",
    "javascript" := "js",
    "typescript" := "ts",
    "java" := "java",
    "cpp" := "cpp",
    "c" := "c",
    "csharp" := "cs",
    "go" := "go",
    "rust" := "rs",
    "sql" := "sql",
    "swift" := "swift"
  ]

  /** `get_file_extension(language)`: total; a known tag in any ASCII case
      gives its extension, anything else the fallback `txt`. */
  function FileExtension(language: string): (ext: string)
    ensures ext == "txt" <==> Lower(language) !in Extensions
    ensures Lower(language) in Extensions ==> ext == Extensions[Lower(language)]
    ensures ext != [] && '.' !in ext
  {
    var key := Lower(language);
    if key in Extensions then Extensions[key] else "txt"
  }

  /** The lookup ignores ASCII case: a tag, its lower-case and its upper-case
      spellings all give the same extension. */
  lemma FileExtensionIgnoresCase(language: string)
    ensures FileExtension(Lower(language)) == FileExtension(language)
    ensures FileExtension(Upper(language)) == FileExtension(language)
  {
    LowerIdempotent(language);
    LowerOfUpper(language);
  }

  /** `problem_name.lower().replace(" ", "_").replace("-", "_")`: every space
      and hyphen becomes an underscore, ASCII letters become lower case. */
  function CleanName(name: string): (clean: string)
    ensures |clean| == |name|
  {
    var lower := Lower(name);
    ReplaceOneChar(lower, " ", "_");
    var spaced := ReplaceAll(lower, " ", "_");
    ReplaceOneChar(spaced, "-", "_");
    ReplaceAll(spaced, "-", "_")
  }

  /** Character by character: spaces and hyphens become underscores, ASCII
      letters become lower case, and no space or hyphen is left. */
  lemma CleanNameSpec(name: string)
    ensures var clean := CleanName(name);
      && (forall i :: 0 <= i < |name| ==>
            clean[i] == if name[i] == ' ' || name[i] == '-' then '_' else LowerChar(name[i]))
      && ' ' !in clean && '-' !in clean
  {
    var lower := Lower(name);
    ReplaceOneChar(lower, " ", "_");
    ReplaceOneChar(ReplaceAll(lower, " ", "_"), "-", "_");
  }

  /** Cleaning a cleaned name changes nothing. */
  lemma CleanNameIdempotent(name: string)
    ensures CleanName(CleanName(name)) == CleanName(name)
  {
    CleanNameSpec(name);
    CleanNameSpec(CleanName(name));
  }

  lemma FileExtensionExamples()
    ensures FileExtension("rust") == "rs"
    ensures FileExtension("Python") == "py"
    ensures FileExtension("kotlin") == "txt"
  {
    assert Lower("rust") == "rust";
    assert Lower("Python") == "python";
    assert Lower("kotlin") == "kotlin";
  }

  /** `folder` is a number of at least four digits (zero-padded only up to
      four) holding `n`, an underscore, then `clean`; the number is exactly
      the folder's leading digit run, so it can be read back. */
  ghost predicate NumberedFolder(folder: string, n: nat, clean: string) {
    var k := |folder| - |clean| - 1;
    && k >= 4
    && (k > 4 ==> folder[0] != '0')
    && LeadingDigits(folder) == k
    && AllDigits(folder[..k])
    && DecimalValue(folder[..k]) == n
    && folder[k] == '_'
    && folder[k + 1..] == clean
  }

  lemma PaddedFolder(n: nat, clean: string)
    ensures NumberedFolder(ZeroPad4(n) + "_" + clean, n, clean)
  {
    var pad := ZeroPad4(n);
    var folder := pad + "_" + clean;
    assert folder[..|pad|] == pad;
    assert folder[|pad| + 1..] == clean;
    assert folder[|pad|] == '_';
    forall k | 0 <= k < |pad|
      ensures IsDigit(folder[k])
    {
      assert folder[k] == pad[k];
    }
    LeadingDigitsUnique(folder, |pad|);
  }

  /** `get_folder_and_filename(problem_number, problem_name, extension)`. */
  function FolderAndFilename(problemNumber: Option<nat>, problemName: string, extension: string): (r: (string, string))
    ensures r.1 == r.0 + "." + extension
    ensures !Truthy(problemNumber) ==> r.0 == CleanName(problemName)
    ensures Truthy(problemNumber) ==> NumberedFolder(r.0, problemNumber.value, CleanName(problemName))
  {
    var clean := CleanName(problemName);
    if Truthy(problemNumber) then
      var pad := ZeroPad4(problemNumber.value);
      PaddedFolder(problemNumber.value, clean);
      (pad + "_" + clean, pad + "_" + clean + "." + extension)
    else
      (clean, clean + "." + extension)
  }

  /** Problem 42: the folder is `0042_<clean name>` and the code file sits in
      it under the same name. */
  lemma FolderAndFilenameExample(problemName: string, extension: string)
    ensures var clean := CleanName(problemName);
      FolderAndFilename(Some(42), problemName, extension) == ("0042_" + clean, "0042_" + clean + "." + extension)
  {
    ZeroPad4Example();
    assert "0042" + "_" == "0042_";
  }

  /** The notes file name both callers derive from the code file name:
      `filename.replace(f".{extension}", ".md")`, which rewrites every
      occurrence of `.<extension>`, not only the final one. */
  function NotesFilename(filename: string, extension: string): string {
    ReplaceAll(filename, "." + extension, ".md")
  }

  /** For a folder name without a dot, the replacement only touches the
      extension suffix: the notes file is `<folder>.md`. */
  lemma NotesFilenameOfDotlessFolder(problemNumber: Option<nat>, problemName: string, extension: string)
    requires '.' !in FolderAndFilename(problemNumber, problemName, extension).0
    ensures var (folder, filename) := FolderAndFilename(problemNumber, problemName, extension);
      NotesFilename(filename, extension) == folder + ".md"
  {
    var (folder, filename) := FolderAndFilename(problemNumber, problemName, extension);
    var pat := "." + extension;
    assert filename == folder + pat;
    ReplaceAllSkipsPrefix(folder, pat, pat, ".md");
    assert ReplaceAll(pat, pat, ".md") == ".md" by {
      assert pat[..|pat|] == pat;
      assert ReplaceAll(pat[|pat|..], pat, ".md") == [];
    }
  }

  /** The name "a.js" with extension "js": the code file is `a.js.js` and the
      replacement also rewrites the `.js` inside the folder, giving `a.md.md`
      where `a.js.md` is the notes file next to it. */
  lemma NotesFilenameRewritesInnerExtension()
    ensures FolderAndFilename(None, "a.js", "js") == ("a.js", "a.js.js")
    ensures NotesFilename("a.js.js", "js") == "a.md.md"
    ensures SwapExtension("a.js.js", "js") == "a.js.md"
  {
    DottedNameFolder();
    ReplaceInnerExtension();
    SwapDottedName();
  }

  lemma SwapDottedName()
    ensures SwapExtension("a.js.js", "js") == "a.js.md"
  {
    assert "a.js.js"[..|"a.js.js"| - 3] == "a.js";
  }

  lemma DottedNameFolder()
    ensures FolderAndFilename(None, "a.js", "js") == ("a.js", "a.js.js")
  {
    CleanNameKeepsDottedName();
    assert "a.js" + "." + "js" == "a.js.js";
  }

  lemma CleanNameKeepsDottedName()
    ensures CleanName("a.js") == "a.js"
  {
    var clean := CleanName("a.js");
    assert clean[0] == 'a' && clean[1] == '.' && clean[2] == 'j' && clean[3] == 's';
  }

  lemma ReplaceInnerExtension()
    ensures ReplaceAll("a.js.js", ".js", ".md") == "a.md.md"
  {
    var pat := ".js";
    assert "a.js.js" == "a" + ".js.js";
    ReplaceAllSkipsPrefix("a", ".js.js", pat, ".md");
    assert ".js.js"[..3] == pat;
    assert ".js.js"[3..] == pat;
    assert pat[..3] == pat;
    assert pat[3..] == [];
  }

  predicate HasSuffix(s: string, suffix: string) {
    |suffix| <= |s| && s[|s| - |suffix|..] == suffix
  }

  /** The intended derivation of the notes file name: the `.<extension>`
      suffix of the code file name, and only that, becomes `.md`. */
  function SwapExtension(filename: string, extension: string): (r: string)
    requires HasSuffix(filename, "." + extension)
    ensures HasSuffix(r, ".md")
    ensures r[..|r| - 3] + "." + extension == filename
  {
    var stem := filename[..|filename| - |extension| - 1];
    assert stem + "." + extension == filename;
    stem + ".md"
  }

  /** With the suffix swap, the notes file is always `<folder>.md`, beside the
      code file `<folder>.<extension>`, whatever the problem name holds. */
  lemma SwapExtensionGivesFolderNotes(problemNumber: Option<nat>, problemName: string, extension: string)
    ensures var (folder, filename) := FolderAndFilename(problemNumber, problemName, extension);
      HasSuffix(filename, "." + extension) && SwapExtension(filename, extension) == folder + ".md"
  {
    var (folder, filename) := FolderAndFilename(problemNumber, problemName, extension);
    assert filename == folder + ("." + extension);
    assert filename[|filename| - |extension| - 1..] == "." + extension;
    assert filename[..|filename| - |extension| - 1] == folder;
  }

  /** The two derivations agree whenever the folder name has no dot. */
  lemma NotesFilenameAgreesWithSwap(problemNumber: Option<nat>, problemName: string, extension: string)
    requires '.' !in FolderAndFilename(problemNumber, problemName, extension).0
    ensures var (folder, filename) := FolderAndFilename(problemNumber, problemName, extension);
      HasSuffix(filename, "." + extension) && NotesFilename(filename, extension) == SwapExtension(filename, extension)
  {
    NotesFilenameOfDotlessFolder(problemNumber, problemName, extension);
    SwapExtensionGivesFolderNotes(problemNumber, problemName, extension);
  }
}
