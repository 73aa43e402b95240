/** The managed block of a consumer's Justfile: plugins/sc-lint/install.py, `unmanaged` and the
    Justfile part of `desired`. */
module Justfile {
  import opened Search
  import opened PythonText

  /** The kit's own text: markers, the recommended `test` recipe, the lines of the block. */
  datatype Kit = Kit(
    open: string, close: string, testRecipe: string,
    shellLine: string, pythonLine: string, importLine: string)

  const SC_LINT_OPEN := "# >>> sc-lint managed integration >>>"
  const SC_LINT_CLOSE := "# <<< sc-lint managed integration <<<"
  const SC_LINT_SHELL: string := "set windows-shell := [\"cmd.exe\", \"/c\"]\n"
  const SC_LINT_PYTHONA: string := "python := if os_family() == \"windows\" "
  const SC_LINT_PYTHONB: string := "{ \"python\" } else { \"python3\" }\n"
  const SC_LINT_PYTHON: string := SC_LINT_PYTHONA + SC_LINT_PYTHONB
  const SC_LINT_IMPORT: string := "import '.sc-lint/justfile'\n"

  /** templates/test.just, line by line: four comments, the head of the recipe, its body. */
  const SC_LINT_NOTE_1A: string := "sc-lint's recommended `test` recipe: "
  const SC_LINT_NOTE_1B: string := "runs the selected "
  const SC_LINT_NOTE_1C: string := "`[tool.sc-lint.test]` selector (or its\n"
  const SC_LINT_NOTE_1: string := SC_LINT_NOTE_1A + (SC_LINT_NOTE_1B + SC_LINT_NOTE_1C)
  const SC_LINT_NOTE_2A: string := "default) in sc-lint.toml; words after "
  const SC_LINT_NOTE_2B: string := "the recipe name are forwarded as\n"
  const SC_LINT_NOTE_2: string := SC_LINT_NOTE_2A + SC_LINT_NOTE_2B
  const SC_LINT_NOTE_3A: string := "`[--fail-fast|--list] "
  const SC_LINT_NOTE_3B: string := "[selector [args...]]`.\n"
  const SC_LINT_NOTE_3: string := SC_LINT_NOTE_3A + SC_LINT_NOTE_3B
  const SC_LINT_NOTE_4A: string := "This repository owns it; "
  const SC_LINT_NOTE_4B: string := "change or replace it as needed.\n"
  const SC_LINT_NOTE_4: string := SC_LINT_NOTE_4A + SC_LINT_NOTE_4B
  const SC_LINT_RECIPE: string := "test *layer:"
  const SC_LINT_BODYA: string := "\n    {{python}} .sc-lint/bootstrap.py "
  const SC_LINT_BODYB: string := "test --config sc-lint.toml {{layer}}\n"
  const SC_LINT_BODY: string := SC_LINT_BODYA + SC_LINT_BODYB

  function Comment(text: string): string { "# " + text }

  const SC_LINT_TEST :=
    Comment(SC_LINT_NOTE_1) + (Comment(SC_LINT_NOTE_2) + (Comment(SC_LINT_NOTE_3) + (Comment(SC_LINT_NOTE_4)
    + (SC_LINT_RECIPE + SC_LINT_BODY))))

  const SC_LINT_KIT := Kit(SC_LINT_OPEN, SC_LINT_CLOSE, SC_LINT_TEST, SC_LINT_SHELL, SC_LINT_PYTHON, SC_LINT_IMPORT)

  // ---------------------------------------------------------------- characters and trimming

  /** `\w`; every non-ASCII character that is not white space is taken as a letter. */
  predicate IsWord(c: char) {
    'a' <= c <= 'z' || 'A' <= c <= 'Z' || '0' <= c <= '9' || c == '_' || (c >= '\U{80}' && !IsSpace(c))
  }

  predicate AllSpace(s: string) { forall i :: 0 <= i < |s| ==> IsSpace(s[i]) }

  predicate AllNewlines(s: string) { forall i :: 0 <= i < |s| ==> s[i] == '\n' }

  /** `rstrip()` */
  function Rstrip(s: string): (r: string)
    ensures r <= s && AllSpace(s[|r|..])
    ensures r != "" ==> !IsSpace(r[|r| - 1])
  {
    if s != "" && IsSpace(s[|s| - 1]) then
      var r := Rstrip(s[..|s| - 1]);
      assert s[|r|..] == s[..|s| - 1][|r|..] + [s[|s| - 1]];
      r
    else s
  }

  /** `lstrip("\n")` */
  function LstripNewlines(s: string): (r: string)
    ensures |r| <= |s| && r == s[|s| - |r|..] && AllNewlines(s[..|s| - |r|])
    ensures r != "" ==> r[0] != '\n'
  {
    if s != "" && s[0] == '\n' then
      var r := LstripNewlines(s[1..]);
      assert s[..|s| - |r|] == [s[0]] + s[1..][..|s| - 1 - |r|];
      r
    else s
  }

  // ---------------------------------------------------------------- searching for recipes and settings

  /** A regular expression with a leading `^` in multi-line mode, as a test on the matched text
      and the character after it. */
  type Pattern = (string, Option<char>) -> bool

  predicate LineStart(t: string, i: int)
    requires 0 <= i <= |t|
  { i == 0 || t[i - 1] == '\n' }

  function NextChar(t: string, e: int): Option<char>
    requires 0 <= e <= |t|
  { if e < |t| then Some(t[e]) else None }

  predicate MatchAt(p: Pattern, t: string, i: int, e: int) {
    0 <= i <= e <= |t| && LineStart(t, i) && p(t[i..e], NextChar(t, e))
  }

  /** `re.search(p, t, re.M)` */
  predicate Found(p: Pattern, t: string) {
    exists i, e :: 0 <= i <= |t| && 0 <= e <= |t| && MatchAt(p, t, i, e)
  }

  /** `test(?![\w-])[^:\n]*:(?!=)` */
  predicate TestRecipe(q: string, next: Option<char>) {
    && |q| >= 5 && q[..4] == "test" && !IsWord(q[4]) && q[4] != '-'
    && (forall k :: 4 <= k < |q| - 1 ==> q[k] != ':' && q[k] != '\n')
    && q[|q| - 1] == ':' && next != Some('=')
  }

  /** `set\s+windows-shell\b` */
  predicate ShellSetting(q: string, next: Option<char>) {
    && |q| > 16 && q[..3] == "set" && AllSpace(q[3..|q| - 13]) && q[|q| - 13..] == "windows-shell"
    && (next.None? || !IsWord(next.value))
  }

  /** `python\s*:?=` */
  predicate PythonAssignment(q: string) {
    && |q| > 6 && q[..6] == "python" && q[|q| - 1] == '='
    && var gap := q[6..|q| - 1];
       AllSpace(gap) || (gap != "" && gap[|gap| - 1] == ':' && AllSpace(gap[..|gap| - 1]))
  }

  /** `(?:export\s+)?python\s*:?=` */
  predicate PythonBinding(q: string, next: Option<char>) {
    || PythonAssignment(q)
    || exists k :: 6 < k <= |q| && q[..6] == "export" && AllSpace(q[6..k]) && PythonAssignment(q[k..])
  }

  // ---------------------------------------------------------------- markers

  /** `re.sub(open.*?close, text, t, re.S)`: every leftmost, shortest marked region becomes `text`. */
  function Sub(t: string, kit: Kit, text: string): string
    requires kit.open != ""
    decreases |t|
  {
    match Find(t, kit.open, 0)
    case None => t
    case Some(i) =>
      match Find(t, kit.close, i + |kit.open|)
      case None => t
      case Some(j) => t[..i] + text + Sub(t[j + |kit.close|..], kit, text)
  }

  function Unmanaged(t: string, kit: Kit): string
    requires kit.open != ""
  { Sub(t, kit, "") }

  /** `t.count(m)` */
  function Count(t: string, m: string): nat
    requires m != ""
    decreases |t|
  {
    match Find(t, m, 0)
    case None => 0
    case Some(i) => 1 + Count(t[i + |m|..], m)
  }

  // ---------------------------------------------------------------- the merge

  /** Append the recommended recipe when the consumer defines none. */
  function WithTest(original: string, kit: Kit): string
    requires kit.open != ""
  {
    if Found(TestRecipe, Unmanaged(original, kit)) then original
    else LstripNewlines(Rstrip(original) + "\n\n" + kit.testRecipe)
  }

  function Inner(kit: Kit, shell: bool, python: bool): string {
    "\n" + (if shell then kit.shellLine else "") + (if python then kit.pythonLine else "") + kit.importLine
  }

  function Block(kit: Kit, shell: bool, python: bool): string {
    kit.open + Inner(kit, shell, python) + kit.close
  }

  /** The block for a text: each binding is provided unless the consumer has it. */
  function BlockFor(unmanaged: string, kit: Kit, wantShell: bool): string {
    Block(kit, wantShell && !Found(ShellSetting, unmanaged), !Found(PythonBinding, unmanaged))
  }

  /** `None` is the marker conflict. */
  function Merge(original: string, kit: Kit, wantShell: bool): Option<string>
    requires kit.open != "" && kit.close != ""
  {
    var t := WithTest(original, kit);
    if Count(t, kit.open) != Count(t, kit.close) || Count(t, kit.open) > 1 then None
    else
      var block := BlockFor(Unmanaged(t, kit), kit, wantShell);
      if Find(t, kit.open, 0).Some? then Some(Sub(t, kit, block))
      else Some(LstripNewlines(Rstrip(t) + "\n\n" + block))
  }

  // ---------------------------------------------------------------- what the kit guarantees

  /** No carriage return: reading text translates them away. */
  predicate Plain(s: string) { forall i :: 0 <= i < |s| ==> s[i] != '\r' }

  predicate PlainKit(kit: Kit) {
    && Plain(kit.open) && Plain(kit.close) && Plain(kit.testRecipe)
    && Plain(kit.shellLine) && Plain(kit.pythonLine) && Plain(kit.importLine)
  }

  predicate HashFree(s: string) { forall i :: 0 <= i < |s| ==> s[i] != '#' }

  /** A one-line comment with a single `#` at its head and no trailing white space. */
  predicate MarkerLike(m: string) {
    && |m| > 1 && m[0] == '#' && !IsSpace(m[|m| - 1])
    && forall i :: 1 <= i < |m| ==> m[i] != '#' && m[i] != '\n'
  }

  /** No marker occurs in `t`. */
  predicate Free(t: string, kit: Kit) {
    Find(t, kit.open, 0).None? && Find(t, kit.close, 0).None?
  }

  predicate MarkersOk(kit: Kit) {
    MarkerLike(kit.open) && MarkerLike(kit.close) && |kit.open| == |kit.close| && kit.open != kit.close
  }

  predicate KitOk(kit: Kit) {
    && MarkersOk(kit)
    && HashFree(kit.shellLine) && HashFree(kit.pythonLine) && HashFree(kit.importLine)
    && Free(kit.testRecipe, kit) && Found(TestRecipe, kit.testRecipe)
  }
}
