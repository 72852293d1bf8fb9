/**
 * The CSS-module type-definition generator: from the text of a `.css` file it
 * produces a TypeScript declaration file with one `export const NAME: string;`
 * line per class selector `.NAME` found in the text.
 *
 * The `regex` crate is replaced by a hand-written scanner for the single
 * pattern `\.\w+`. Characters are taken to be ASCII for the purpose of `\w`:
 * full Unicode `\w` (letters, marks, digits and connector punctuation of every
 * script) and grapheme clustering in `remove_dot` are not modelled.
 */
module CssModulesType {
  import opened Outcomes

  // ---------------------------------------------------------------------------
  // Scanning for `\.\w+`
  // ---------------------------------------------------------------------------

  /** `\w`, restricted to ASCII: `[A-Za-z0-9_]`. */
  predicate IsWordChar(c: char)
  {
    ('a' <= c <= 'z') || ('A' <= c <= 'Z') || ('0' <= c <= '9') || c == '_'
  }

  predicate AllWord(s: string)
  {
    forall k :: 0 <= k < |s| ==> IsWordChar(s[k])
  }

  /** Position `i` holds a `.` immediately followed by a word character. */
  predicate IsMatchStart(css: string, i: int)
  {
    0 <= i && i + 1 < |css| && css[i] == '.' && IsWordChar(css[i + 1])
  }

  /** `css[s..e]` matches `\.\w+` and cannot be extended to the right. */
  predicate IsMaximalMatch(css: string, s: int, e: int)
  {
    && IsMatchStart(css, s)
    && s + 2 <= e <= |css|
    && (forall k :: s + 1 <= k < e ==> IsWordChar(css[k]))
    && (e == |css| || !IsWordChar(css[e]))
  }

  /** A match, as the half-open range `[start, end)` of the text. */
  datatype Span = Span(start: nat, end: nat)

  /** End of the run of word characters that begins at `j` (the greedy `\w+`). */
  function RunEnd(css: string, j: nat): (e: nat)
    requires j <= |css|
    ensures j <= e <= |css|
    ensures forall k :: j <= k < e ==> IsWordChar(css[k])
    ensures e == |css| || !IsWordChar(css[e])
    decreases |css| - j
  {
    if j < |css| && IsWordChar(css[j]) then RunEnd(css, j + 1) else j
  }

  /**
   * The matches `find_iter` reports from position `i` on: leftmost first, each
   * one greedy, the search resuming where the previous match ended.
   */
  function MatchesFrom(css: string, i: nat): (spans: seq<Span>)
    requires i <= |css|
    ensures forall k :: 0 <= k < |spans| ==>
              i <= spans[k].start && IsMaximalMatch(css, spans[k].start, spans[k].end)
    ensures forall k :: 0 <= k < |spans| - 1 ==> spans[k].end <= spans[k + 1].start
    decreases |css| - i
  {
    if i + 1 >= |css| then []
    else if IsMatchStart(css, i) then
      var e := RunEnd(css, i + 1);
      [Span(i, e)] + MatchesFrom(css, e)
    else
      MatchesFrom(css, i + 1)
  }

  /** Every `.` followed by a word character starts one of the reported matches. */
  lemma {:induction false} MatchesFromComplete(css: string, i: nat, p: int)
    requires i <= p && IsMatchStart(css, p)
    ensures exists k :: 0 <= k < |MatchesFrom(css, i)| && MatchesFrom(css, i)[k].start == p
    decreases |css| - i
  {
    if IsMatchStart(css, i) {
      var e := RunEnd(css, i + 1);
      if p == i {
        assert MatchesFrom(css, i)[0].start == p;
      } else {
        // css[p] is a '.', so it lies beyond the run of word characters
        assert e <= p by {
          assert !IsWordChar(css[p]);
        }
        MatchesFromComplete(css, e, p);
        var k :| 0 <= k < |MatchesFrom(css, e)| && MatchesFrom(css, e)[k].start == p;
        MatchesAfterRun(css, i, k);
      }
    } else {
      assert MatchesFrom(css, i) == MatchesFrom(css, i + 1);
      MatchesFromComplete(css, i + 1, p);
    }
  }

  /** After a match at `i`, the matches found from the end of its run follow it. */
  lemma MatchesAfterRun(css: string, i: nat, k: nat)
    requires IsMatchStart(css, i)
    requires k < |MatchesFrom(css, RunEnd(css, i + 1))|
    ensures k + 1 < |MatchesFrom(css, i)|
    ensures MatchesFrom(css, i)[k + 1] == MatchesFrom(css, RunEnd(css, i + 1))[k]
  {
  }

  /** Number of positions at or after `i` where a match starts. */
  function MatchStartCount(css: string, i: nat): nat
    requires i <= |css|
    decreases |css| - i
  {
    if i == |css| then 0
    else (if IsMatchStart(css, i) then 1 else 0) + MatchStartCount(css, i + 1)
  }

  lemma {:induction false} NoStartsInRun(css: string, j: nat, e: nat)
    requires j <= e <= |css|
    requires forall k :: j <= k < e ==> IsWordChar(css[k])
    ensures MatchStartCount(css, j) == MatchStartCount(css, e)
    decreases e - j
  {
    if j < e {
      assert !IsMatchStart(css, j);
      NoStartsInRun(css, j + 1, e);
    }
  }

  /** The scanner reports exactly one match per `.` followed by a word character. */
  lemma {:induction false} MatchesFromCount(css: string, i: nat)
    requires i <= |css|
    ensures |MatchesFrom(css, i)| == MatchStartCount(css, i)
    decreases |css| - i
  {
    if i + 1 >= |css| {
      if i < |css| {
        assert !IsMatchStart(css, i);
        assert MatchStartCount(css, i) == MatchStartCount(css, i + 1);
      }
    } else if IsMatchStart(css, i) {
      var e := RunEnd(css, i + 1);
      NoStartsInRun(css, i + 1, e);
      MatchesFromCount(css, e);
    } else {
      MatchesFromCount(css, i + 1);
    }
  }

  /** `parse_rules`: the text of every match, in order. */
  function ParseRules(css: string): (rules: seq<string>)
    ensures |rules| == MatchStartCount(css, 0)
    ensures forall k :: 0 <= k < |rules| ==>
              |rules[k]| >= 2 && rules[k][0] == '.' && AllWord(rules[k][1..])
  {
    var spans := MatchesFrom(css, 0);
    MatchesFromCount(css, 0);
    seq(|spans|, k requires 0 <= k < |spans| => css[spans[k].start..spans[k].end])
  }

  /**
   * `parse_rules` returns the leftmost, non-overlapping, maximal matches of
   * `\.\w+`, and a match starts at every `.` followed by a word character.
   */
  lemma ParseRulesAreAllMaximalMatches(css: string)
    ensures var rules, spans := ParseRules(css), MatchesFrom(css, 0);
      && |rules| == |spans|
      && (forall k :: 0 <= k < |spans| ==>
            rules[k] == css[spans[k].start..spans[k].end]
            && IsMaximalMatch(css, spans[k].start, spans[k].end))
      && (forall k :: 0 <= k < |spans| - 1 ==> spans[k].end <= spans[k + 1].start)
      && (forall p :: IsMatchStart(css, p) <==> exists k :: 0 <= k < |spans| && spans[k].start == p)
  {
    var spans := MatchesFrom(css, 0);
    forall p | IsMatchStart(css, p)
      ensures exists k :: 0 <= k < |spans| && spans[k].start == p
    {
      MatchesFromComplete(css, 0, p);
    }
  }

  /** No rule at all exactly when no `.` is immediately followed by a word character. */
  lemma NoRulesIffNoDotWord(css: string)
    ensures ParseRules(css) == [] <==> forall p :: !IsMatchStart(css, p)
  {
    ParseRulesAreAllMaximalMatches(css);
    var spans := MatchesFrom(css, 0);
    if spans != [] {
      assert IsMatchStart(css, spans[0].start);
    }
  }

  // ---------------------------------------------------------------------------
  // From rules to a declaration file
  // ---------------------------------------------------------------------------

  /** Drop the first character (the first grapheme, for ASCII text); `""` stays `""`. */
  function DropFirst(rule: string): (name: string)
  {
    if rule == [] then [] else rule[1..]
  }

  /** `remove_dot`. */
  function RemoveDot(rules: seq<string>): (names: seq<string>)
    ensures |names| == |rules|
    ensures forall k :: 0 <= k < |rules| && rules[k] != [] ==> [rules[k][0]] + names[k] == rules[k]
    ensures forall k :: 0 <= k < |rules| && rules[k] == [] ==> names[k] == []
  {
    seq(|rules|, k requires 0 <= k < |rules| => DropFirst(rules[k]))
  }

  /** The bare class names of a style sheet: non-empty words, `.` + name being the rule. */
  lemma RuleNamesAreWords(css: string)
    ensures var rules, names := ParseRules(css), RemoveDot(ParseRules(css));
      && |names| == |rules|
      && forall k :: 0 <= k < |names| ==>
           names[k] != [] && AllWord(names[k]) && "." + names[k] == rules[k]
  {
  }

  const ExportPrefix: string := "export const "
  const ExportSuffix: string := ": string;"

  function TypeDef(name: string): string
  {
    ExportPrefix + name + ExportSuffix
  }

  /** `type_defs_of_rules`. */
  function TypeDefsOfRules(names: seq<string>): (defs: seq<string>)
  {
    seq(|names|, k requires 0 <= k < |names| => TypeDef(names[k]))
  }

  /** Reads the name back out of an `export const NAME: string;` line. */
  function NameOfTypeDef(line: string): Option<string>
  {
    if |line| >= |ExportPrefix| + |ExportSuffix|
       && line[..|ExportPrefix|] == ExportPrefix
       && line[|line| - |ExportSuffix|..] == ExportSuffix
    then Some(line[|ExportPrefix|..|line| - |ExportSuffix|])
    else None
  }

  /** `type_defs_of_rules` maps each name, in order, to a line that gives the name back. */
  lemma TypeDefsOfRulesRoundTrip(names: seq<string>)
    ensures |TypeDefsOfRules(names)| == |names|
    ensures forall k :: 0 <= k < |names| ==> NameOfTypeDef(TypeDefsOfRules(names)[k]) == Some(names[k])
  {
    forall k | 0 <= k < |names|
      ensures NameOfTypeDef(TypeDef(names[k])) == Some(names[k])
    {
      var line := TypeDef(names[k]);
      assert line[..|ExportPrefix|] == ExportPrefix;
      assert line[|line| - |ExportSuffix|..] == ExportSuffix;
      assert line[|ExportPrefix|..|line| - |ExportSuffix|] == names[k];
    }
  }

  /** `create_type_defs_file`: a left fold appending each definition and a `\n`. */
  function CreateTypeDefsFile(defs: seq<string>): (file: string)
    decreases |defs|
  {
    if defs == [] then ""
    else CreateTypeDefsFile(defs[..|defs| - 1]) + defs[|defs| - 1] + "\n"
  }

  /** Reference definition: each definition followed by its newline, front to back. */
  function Terminated(defs: seq<string>): string
    decreases |defs|
  {
    if defs == [] then "" else defs[0] + "\n" + Terminated(defs[1..])
  }

  lemma {:induction false} TerminatedAppend(defs: seq<string>, d: string)
    ensures Terminated(defs + [d]) == Terminated(defs) + d + "\n"
    decreases |defs|
  {
    if defs == [] {
      assert Terminated([d]) == d + "\n" + Terminated([]);
    } else {
      assert (defs + [d])[1..] == defs[1..] + [d];
      TerminatedAppend(defs[1..], d);
    }
  }

  /** The fold equals the front-to-back concatenation of `d + "\n"`. */
  lemma {:induction false} CreateTypeDefsFileIsTerminated(defs: seq<string>)
    ensures CreateTypeDefsFile(defs) == Terminated(defs)
    decreases |defs|
  {
    if defs != [] {
      var init := defs[..|defs| - 1];
      CreateTypeDefsFileIsTerminated(init);
      TerminatedAppend(init, defs[|defs| - 1]);
      assert init + [defs[|defs| - 1]] == defs;
    }
  }

  function CountNewlines(s: string): nat
  {
    if s == [] then 0 else (if s[0] == '\n' then 1 else 0) + CountNewlines(s[1..])
  }

  lemma {:induction false} CountNewlinesAppend(a: string, b: string)
    ensures CountNewlines(a + b) == CountNewlines(a) + CountNewlines(b)
    decreases |a|
  {
    if a != [] {
      assert (a + b)[1..] == a[1..] + b;
      CountNewlinesAppend(a[1..], b);
    } else {
      assert a + b == b;
    }
  }

  lemma {:induction false} NoNewlineCount(s: string)
    requires '\n' !in s
    ensures CountNewlines(s) == 0
    decreases |s|
  {
    if s != [] {
      NoNewlineCount(s[1..]);
    }
  }

  /** The file has one `\n` per definition, and `""` for no definitions. */
  lemma {:induction false} CreateTypeDefsFileNewlines(defs: seq<string>)
    requires forall k :: 0 <= k < |defs| ==> '\n' !in defs[k]
    ensures CountNewlines(CreateTypeDefsFile(defs)) == |defs|
    ensures defs == [] ==> CreateTypeDefsFile(defs) == ""
    decreases |defs|
  {
    if defs != [] {
      var init, last := defs[..|defs| - 1], defs[|defs| - 1];
      CreateTypeDefsFileNewlines(init);
      NoNewlineCount(last);
      CountNewlinesAppend(CreateTypeDefsFile(init), last);
      CountNewlinesAppend(CreateTypeDefsFile(init) + last, "\n");
      assert CountNewlines("\n") == 1;
    }
  }

  /** Index of the first `\n`, or `|s|` when there is none. */
  function LineEnd(s: string): (i: nat)
    ensures i <= |s|
    ensures forall k :: 0 <= k < i ==> s[k] != '\n'
    ensures i < |s| ==> s[i] == '\n'
  {
    if s == [] || s[0] == '\n' then 0 else 1 + LineEnd(s[1..])
  }

  /** Splits a text of `\n`-terminated lines into its lines (a last unterminated line is kept). */
  function Lines(s: string): seq<string>
    decreases |s|
  {
    if s == [] then []
    else
      var i := LineEnd(s);
      if i == |s| then [s] else [s[..i]] + Lines(s[i + 1..])
  }

  lemma {:induction false} LinesOfTerminated(defs: seq<string>)
    requires forall k :: 0 <= k < |defs| ==> '\n' !in defs[k]
    ensures Lines(Terminated(defs)) == defs
    decreases |defs|
  {
    if defs != [] {
      var s := Terminated(defs);
      var d := defs[0];
      assert s == d + "\n" + Terminated(defs[1..]);
      LineEndAfter(d, Terminated(defs[1..]));
      assert s[..|d|] == d;
      assert s[|d| + 1..] == Terminated(defs[1..]);
      LinesOfTerminated(defs[1..]);
    }
  }

  lemma {:induction false} LineEndAfter(d: string, rest: string)
    requires '\n' !in d
    ensures LineEnd(d + "\n" + rest) == |d|
    decreases |d|
  {
    if d != [] {
      assert (d + "\n" + rest)[1..] == d[1..] + "\n" + rest;
      LineEndAfter(d[1..], rest);
    }
  }

  /** Splitting the file at its newlines gives back the definitions. */
  lemma CreateTypeDefsFileLines(defs: seq<string>)
    requires forall k :: 0 <= k < |defs| ==> '\n' !in defs[k]
    ensures Lines(CreateTypeDefsFile(defs)) == defs
  {
    CreateTypeDefsFileIsTerminated(defs);
    LinesOfTerminated(defs);
  }

  /** `handle_css_change`: rules, names, definitions, file. */
  function HandleCssChange(content: string): string
  {
    CreateTypeDefsFile(TypeDefsOfRules(RemoveDot(ParseRules(content))))
  }

  lemma TypeDefHasNoNewline(name: string)
    requires AllWord(name)
    ensures '\n' !in TypeDef(name)
  {
    var line := TypeDef(name);
    forall i | 0 <= i < |line|
      ensures line[i] != '\n'
    {
      if |ExportPrefix| <= i < |ExportPrefix| + |name| {
        assert line[i] == name[i - |ExportPrefix|];
      }
    }
  }

  /**
   * The generated file holds, line by line, `export const NAME: string;` for
   * every occurrence of `.NAME` in order, duplicates included: one line per
   * `.` followed by a word character.
   */
  lemma HandleCssChangeLines(content: string)
    ensures var rules, lines := ParseRules(content), Lines(HandleCssChange(content));
      && |lines| == |rules| == MatchStartCount(content, 0)
      && forall k :: 0 <= k < |lines| ==> lines[k] == ExportPrefix + rules[k][1..] + ExportSuffix
    ensures CountNewlines(HandleCssChange(content)) == MatchStartCount(content, 0)
  {
    var names := RemoveDot(ParseRules(content));
    var defs := TypeDefsOfRules(names);
    RuleNamesAreWords(content);
    forall k | 0 <= k < |defs|
      ensures '\n' !in defs[k]
    {
      TypeDefHasNoNewline(names[k]);
    }
    CreateTypeDefsFileLines(defs);
    CreateTypeDefsFileNewlines(defs);
  }

  lemma RepeatedRuleParses()
    ensures ParseRules(".a .a") == [".a", ".a"]
  {
    var css := ".a .a";
    assert IsMatchStart(css, 0) && IsMatchStart(css, 3);
    assert RunEnd(css, 1) == 2 by {
      assert RunEnd(css, 2) == 2;
    }
    assert RunEnd(css, 4) == 5;
    assert MatchesFrom(css, 5) == [];
    assert MatchesFrom(css, 3) == [Span(3, 5)];
    assert MatchesFrom(css, 2) == MatchesFrom(css, 3);
    assert MatchesFrom(css, 0) == [Span(0, 2), Span(3, 5)];
    assert css[0..2] == ".a" && css[3..5] == ".a";
  }

  lemma TwoLineFile(line: string)
    ensures CreateTypeDefsFile([line, line]) == line + "\n" + line + "\n"
  {
    assert [line, line][..1] == [line] && [line][..0] == [];
    assert CreateTypeDefsFile([line]) == line + "\n";
  }

  /** `.a .a` gives two identical lines: occurrences are not deduplicated. */
  lemma RepeatedRuleGivesTwoLines()
    ensures HandleCssChange(".a .a") == "export const a: string;\nexport const a: string;\n"
  {
    RepeatedRuleParses();
    RepeatedRuleDefs();
    TwoLineFile("export const a: string;");
  }

  lemma RepeatedRuleDefs()
    ensures TypeDefsOfRules(RemoveDot([".a", ".a"])) == ["export const a: string;", "export const a: string;"]
  {
    assert RemoveDot([".a", ".a"]) == ["a", "a"];
    assert TypeDef("a") == "export const a: string;";
  }

  // ---------------------------------------------------------------------------
  // Paths
  // ---------------------------------------------------------------------------

  /**
   * One unit of an operating-system string: a character, or a byte with the
   * high bit set that is not part of valid UTF-8 (which `to_str` refuses).
   * The text is taken in decoded form: every byte sequence that is valid
   * UTF-8 is written as `Ch` units, so a run of `Raw` units never spells a
   * character. The type does not enforce this form.
   */
  datatype OsUnit = Ch(c: char) | Raw(byte: HighByte)

  type HighByte = b: int | 0x80 <= b < 0x100 witness 0x80

  type OsText = seq<OsUnit>

  /** A Unix path, as the operating system hands it over. */
  type Path = OsText

  /** Every unit is a character: the text is valid UTF-8. */
  predicate IsText(t: OsText)
  {
    forall k :: 0 <= k < |t| ==> t[k].Ch?
  }

  /** `to_str`: the text, when every unit is a character. */
  function ToStr(t: OsText): Option<string>
  {
    if IsText(t) then Some(seq(|t|, k requires 0 <= k < |t| => t[k].c)) else None
  }

  function Chars(s: string): (t: OsText)
    ensures |t| == |s| && forall k :: 0 <= k < |s| ==> t[k] == Ch(s[k])
  {
    seq(|s|, k requires 0 <= k < |s| => Ch(s[k]))
  }

  /** A text made only of characters converts back to itself. */
  lemma ToStrChars(s: string)
    ensures ToStr(Chars(s)) == Some(s)
  {
    assert ToStr(Chars(s)).value == s;
  }

  /** `to_str` succeeds exactly on text with no raw byte, and then keeps every character in place. */
  lemma ToStrOfUnits(t: OsText)
    ensures ToStr(t).None? <==> exists k :: 0 <= k < |t| && t[k].Raw?
    ensures ToStr(t).Some? ==>
      |ToStr(t).value| == |t| && forall k :: 0 <= k < |t| ==> t[k] == Ch(ToStr(t).value[k])
  {
  }

  const Slash: OsUnit := Ch('/')
  const Dot: OsUnit := Ch('.')

  predicate NoSlash(t: OsText)
  {
    forall j :: 0 <= j < |t| ==> t[j] != Slash
  }

  /** Index of the first `/`, or `|p|`. */
  function SlashAt(p: Path): (i: nat)
    ensures i <= |p|
    ensures NoSlash(p[..i])
    ensures i < |p| ==> p[i] == Slash
  {
    if p == [] || p[0] == Slash then 0 else 1 + SlashAt(p[1..])
  }

  /** The pieces between the `/` separators (empty pieces included). */
  function SplitSlash(p: Path): (parts: seq<OsText>)
    ensures |parts| >= 1
    ensures forall k :: 0 <= k < |parts| ==> NoSlash(parts[k])
    decreases |p|
  {
    var i := SlashAt(p);
    if i == |p| then [p] else [p[..i]] + SplitSlash(p[i + 1..])
  }

  function JoinSlash(parts: seq<OsText>): Path
    requires |parts| >= 1
  {
    if |parts| == 1 then parts[0] else parts[0] + [Slash] + JoinSlash(parts[1..])
  }

  lemma SplitSlashAtFirst(p: Path)
    requires SlashAt(p) < |p|
    ensures SplitSlash(p) == [p[..SlashAt(p)]] + SplitSlash(p[SlashAt(p) + 1..])
  {
  }

  lemma JoinSlashCons(head: OsText, tail: seq<OsText>)
    requires |tail| >= 1
    ensures JoinSlash([head] + tail) == head + [Slash] + JoinSlash(tail)
  {
    assert ([head] + tail)[1..] == tail;
  }

  /** Splitting at the separators loses nothing. */
  lemma {:induction false} SplitSlashRoundTrip(p: Path)
    ensures JoinSlash(SplitSlash(p)) == p
    decreases |p|
  {
    var i := SlashAt(p);
    if i < |p| {
      SplitSlashRoundTrip(p[i + 1..]);
      JoinFirstPiece(p);
    } else {
      assert SplitSlash(p) == [p];
    }
  }

  /** The step of the round trip: the first piece, a `/`, then the rest joined. */
  lemma JoinFirstPiece(p: Path)
    requires SlashAt(p) < |p|
    requires JoinSlash(SplitSlash(p[SlashAt(p) + 1..])) == p[SlashAt(p) + 1..]
    ensures JoinSlash(SplitSlash(p)) == p
  {
    var i := SlashAt(p);
    var rest := p[i + 1..];
    assert JoinSlash(SplitSlash(p)) == p[..i] + [Slash] + rest by {
      SplitSlashAtFirst(p);
      JoinSlashCons(p[..i], SplitSlash(rest));
    }
    SeqAround(p, i);
  }

  lemma SeqAround<T>(s: seq<T>, i: nat)
    requires i < |s|
    ensures s[..i] + [s[i]] + s[i + 1..] == s
  {
    assert s[i..] == [s[i]] + s[i + 1..];
    assert s == s[..i] + s[i..];
  }

  /** The pieces that are named components: empty pieces (repeated or trailing `/`) and `.` are skipped. */
  function NamedParts(parts: seq<OsText>): (named: seq<OsText>)
    requires forall k :: 0 <= k < |parts| ==> NoSlash(parts[k])
    ensures forall k :: 0 <= k < |named| ==> NoSlash(named[k]) && named[k] != [] && named[k] != [Dot]
  {
    if parts == [] then []
    else if parts[|parts| - 1] == [] || parts[|parts| - 1] == [Dot] then NamedParts(parts[..|parts| - 1])
    else NamedParts(parts[..|parts| - 1]) + [parts[|parts| - 1]]
  }

  /** `Path::file_name`: the final component, unless there is none or it is `..`. */
  function FileName(p: Path): (name: Option<OsText>)
    ensures name.Some? ==> name.value != [] && name.value != [Dot, Dot] && NoSlash(name.value)
  {
    var named := NamedParts(SplitSlash(p));
    if named == [] || named[|named| - 1] == [Dot, Dot] then None
    else Some(named[|named| - 1])
  }

  /** A piece that `components` skips: empty (from `//` or a trailing `/`) or `.`. */
  predicate Skipped(part: OsText)
  {
    part == [] || part == [Dot]
  }

  /** Piece `k` is the last one that is not skipped. */
  predicate LastNamed(parts: seq<OsText>, k: int)
  {
    && 0 <= k < |parts|
    && !Skipped(parts[k])
    && forall j :: k < j < |parts| ==> Skipped(parts[j])
  }

  lemma {:induction false} NamedPartsOfSkipped(parts: seq<OsText>)
    requires forall k :: 0 <= k < |parts| ==> NoSlash(parts[k])
    requires forall j :: 0 <= j < |parts| ==> Skipped(parts[j])
    ensures NamedParts(parts) == []
    decreases |parts|
  {
    if parts != [] {
      NamedPartsOfSkipped(parts[..|parts| - 1]);
    }
  }

  lemma {:induction false} NamedPartsLast(parts: seq<OsText>, k: int)
    requires forall k :: 0 <= k < |parts| ==> NoSlash(parts[k])
    requires LastNamed(parts, k)
    ensures NamedParts(parts) != [] && NamedParts(parts)[|NamedParts(parts)| - 1] == parts[k]
    decreases |parts|
  {
    if k < |parts| - 1 {
      assert LastNamed(parts[..|parts| - 1], k);
      NamedPartsLast(parts[..|parts| - 1], k);
    }
  }

  /** Either every piece is skipped, or some piece is the last named one. */
  lemma {:induction false} SkippedOrLastNamed(parts: seq<OsText>)
    ensures (forall j :: 0 <= j < |parts| ==> Skipped(parts[j])) || exists k :: LastNamed(parts, k)
    decreases |parts|
  {
    if parts != [] && Skipped(parts[|parts| - 1]) {
      var init := parts[..|parts| - 1];
      SkippedOrLastNamed(init);
      if k :| LastNamed(init, k) {
        assert LastNamed(parts, k);
      } else {
        assert forall j :: 0 <= j < |parts| ==> Skipped(parts[j]) by {
          forall j | 0 <= j < |parts| ensures Skipped(parts[j]) {
            if j < |init| {
              assert parts[j] == init[j];
            }
          }
        }
      }
    } else if parts != [] {
      assert LastNamed(parts, |parts| - 1);
    }
  }

  /**
   * `file_name` is the last `/`-separated piece that is neither empty nor
   * `.`, unless that piece is `..`; with no such piece there is none.
   */
  lemma FileNameOfPieces(p: Path)
    ensures var parts := SplitSlash(p);
      && ((forall j :: 0 <= j < |parts| ==> Skipped(parts[j])) || exists k :: LastNamed(parts, k))
      && ((forall j :: 0 <= j < |parts| ==> Skipped(parts[j])) ==> FileName(p).None?)
      && forall k :: LastNamed(parts, k) ==>
           FileName(p) == if parts[k] == [Dot, Dot] then None else Some(parts[k])
  {
    var parts := SplitSlash(p);
    SkippedOrLastNamed(parts);
    if forall j :: 0 <= j < |parts| ==> Skipped(parts[j]) {
      NamedPartsOfSkipped(parts);
    }
    forall k | LastNamed(parts, k)
      ensures FileName(p) == if parts[k] == [Dot, Dot] then None else Some(parts[k])
    {
      NamedPartsLast(parts, k);
    }
  }

  lemma {:induction false} SlashAtAppend(a: Path, b: Path)
    ensures SlashAt(a + b) == if SlashAt(a) < |a| then SlashAt(a) else |a| + SlashAt(b)
    decreases |a|
  {
    if a == [] {
      assert a + b == b;
    } else if a[0] != Slash {
      assert (a + b)[1..] == a[1..] + b;
      SlashAtAppend(a[1..], b);
    }
  }

  lemma {:induction false} SplitSlashOfJoin(dir: Path, name: OsText)
    requires NoSlash(name)
    ensures SplitSlash(dir + [Slash] + name) == SplitSlash(dir) + [name]
    decreases |dir|
  {
    var i := SlashAt(dir);
    assert SlashAt(dir + [Slash] + name) == i by {
      SlashAtAppend(dir, [Slash]);
      SlashAtAppend(dir + [Slash], name);
    }
    if i < |dir| {
      SplitSlashOfJoin(dir[i + 1..], name);
      SplitJoinAfterSlash(dir, name);
    } else {
      SplitJoinNoSlash(dir, name);
    }
  }

  /** The step: `dir` has a first `/`, and the rest of it already splits with `name` as its last piece. */
  lemma SplitJoinAfterSlash(dir: Path, name: OsText)
    requires SlashAt(dir) < |dir| && SlashAt(dir + [Slash] + name) == SlashAt(dir)
    requires var rest := dir[SlashAt(dir) + 1..];
      SplitSlash(rest + [Slash] + name) == SplitSlash(rest) + [name]
    ensures SplitSlash(dir + [Slash] + name) == SplitSlash(dir) + [name]
  {
    var i := SlashAt(dir);
    var head, tail := dir[..i], SplitSlash(dir[i + 1..]);
    FirstPieceOfJoin(dir, name);
    SplitSlashAtFirst(dir);
    assert [head] + (tail + [name]) == ([head] + tail) + [name];
  }

  lemma FirstPieceOfJoin(dir: Path, name: OsText)
    requires SlashAt(dir) < |dir| && SlashAt(dir + [Slash] + name) == SlashAt(dir)
    ensures var i := SlashAt(dir);
      SplitSlash(dir + [Slash] + name) == [dir[..i]] + SplitSlash(dir[i + 1..] + [Slash] + name)
  {
    var p, i := dir + [Slash] + name, SlashAt(dir);
    SlicesOfAppend(dir + [Slash], name, i);
    SlicesOfAppend(dir, [Slash], i);
    SplitSlashAtFirst(p);
  }

  /** The base: `dir` has no `/`, so it and `name` are the two pieces. */
  lemma SplitJoinNoSlash(dir: Path, name: OsText)
    requires NoSlash(name) && SlashAt(dir) == |dir| && SlashAt(dir + [Slash] + name) == |dir|
    ensures SplitSlash(dir + [Slash] + name) == SplitSlash(dir) + [name]
  {
    var p := dir + [Slash] + name;
    assert SplitSlash(name) == [name];
    assert p[..|dir|] == dir && p[|dir| + 1..] == name;
    SplitSlashAtFirst(p);
  }

  lemma SlicesOfAppend<T>(a: seq<T>, b: seq<T>, i: nat)
    requires i < |a|
    ensures (a + b)[..i] == a[..i] && (a + b)[i + 1..] == a[i + 1..] + b
  {
  }

  /** A name after a last `/` is the file name, whatever the directory before it. */
  lemma FileNameOfJoin(dir: Path, name: OsText)
    requires NoSlash(name) && !Skipped(name) && name != [Dot, Dot]
    ensures FileName(dir + [Slash] + name) == Some(name)
  {
    var parts := SplitSlash(dir + [Slash] + name);
    SplitSlashOfJoin(dir, name);
    assert LastNamed(parts, |parts| - 1);
    FileNameOfPieces(dir + [Slash] + name);
  }

  /** Index of the last `.` in a name, if any. */
  function LastDot(name: OsText): (r: Option<nat>)
    ensures r.None? ==> forall k :: 0 <= k < |name| ==> name[k] != Dot
    ensures r.Some? ==> r.value < |name| && name[r.value] == Dot
    ensures r.Some? ==> forall k :: r.value < k < |name| ==> name[k] != Dot
  {
    if name == [] then None
    else if name[|name| - 1] == Dot then Some(|name| - 1)
    else LastDot(name[..|name| - 1])
  }

  /** `Path::extension`: what follows the last `.` of the file name, when the part before it is not empty. */
  function Extension(p: Path): (ext: Option<OsText>)
  {
    match FileName(p)
    case None => None
    case Some(name) =>
      match LastDot(name)
      case None => None
      case Some(i) => if i == 0 then None else Some(name[i + 1..])
  }

  /** The extension is taken from the file name: `stem.ext` with a non-empty stem and no `.` in `ext`. */
  lemma ExtensionOfFileName(p: Path)
    ensures Extension(p).Some? <==>
      FileName(p).Some? && exists i :: 0 < i < |FileName(p).value| && FileName(p).value[i] == Dot
    ensures Extension(p).Some? ==>
      var name, ext := FileName(p).value, Extension(p).value;
      && |ext| < |name|
      && name == name[..|name| - |ext| - 1] + [Dot] + ext
      && name[..|name| - |ext| - 1] != []
      && Dot !in ext
  {
    if Extension(p).Some? {
      var name, ext := FileName(p).value, Extension(p).value;
      var j := LastDot(name).value;
      assert name == name[..j] + [Dot] + ext;
    }
  }

  /** A file name whose last `.` is at `j` has the extension after it, unless `j` is 0. */
  lemma ExtensionAt(p: Path, name: OsText, j: nat)
    requires FileName(p) == Some(name)
    requires j < |name| && name[j] == Dot
    requires forall k :: j < k < |name| ==> name[k] != Dot
    ensures Extension(p) == if j == 0 then None else Some(name[j + 1..])
  {
    assert LastDot(name) == Some(j);
  }

  /** A file name `stem.ext`, with no `.` in `ext`, has extension `ext` unless `stem` is empty. */
  lemma ExtensionOfName(p: Path, stem: OsText, ext: OsText)
    requires FileName(p) == Some(stem + [Dot] + ext)
    requires forall k :: 0 <= k < |ext| ==> ext[k] != Dot
    ensures Extension(p) == if stem == [] then None else Some(ext)
  {
    var name := stem + [Dot] + ext;
    assert forall k :: |stem| < k < |name| ==> name[k] == ext[k - |stem| - 1];
    ExtensionAt(p, name, |stem|);
    assert name[|stem| + 1..] == ext;
  }

  /** The path names a `.css` file: its extension is exactly `css`, case-sensitive. */
  predicate IsCssPath(p: Path)
  {
    Extension(p).Some? && ToStr(Extension(p).value) == Some("css")
  }

  const TypeDefsSuffix: string := ".d.ts"
  const UnknownName: string := "unknown"

  /** `create_type_defs_filename`. */
  function CreateTypeDefsFilename(p: Path): (filename: string)
    ensures |filename| > |TypeDefsSuffix| && filename[|filename| - |TypeDefsSuffix|..] == TypeDefsSuffix
    ensures '/' !in filename
    ensures var stem := filename[..|filename| - |TypeDefsSuffix|];
      || (stem == UnknownName && (FileName(p).None? || ToStr(FileName(p).value).None?))
      || (FileName(p).Some? && ToStr(FileName(p).value) == Some(stem))
  {
    match FileName(p)
    case Some(name) =>
      (match ToStr(name)
       case Some(s) =>
         assert forall k :: 0 <= k < |s| ==> s[k] != '/' by {
           forall k | 0 <= k < |s| ensures s[k] != '/' {
             assert name[k] in name;
           }
         }
         s + TypeDefsSuffix
       case None => UnknownName + TypeDefsSuffix)
    case None => UnknownName + TypeDefsSuffix
  }

  lemma CssSuffix(name: OsText, s: string, j: nat)
    requires j < |name| && name[j] == Dot
    requires ToStr(name) == Some(s) && ToStr(name[j + 1..]) == Some("css")
    ensures |s| >= 4 && s[|s| - 4..] == ".css"
  {
    var ext := name[j + 1..];
    assert |ext| == 3 && |s| == |name| == j + 4;
    assert s[|s| - 4..] == ".css" by {
      forall k | 0 <= k < 4
        ensures s[j + k] == ".css"[k]
      {
        assert s[j + k] == name[j + k].c;
        if k > 0 {
          assert name[j + k] == ext[k - 1];
          assert ext[k - 1].c == "css"[k - 1];
        }
      }
    }
  }

  /** For a `.css` path the output is `NAME.css.d.ts`, or `unknown.d.ts` for a name that is not UTF-8. */
  lemma CssFilenameEndsInCssDts(p: Path)
    requires IsCssPath(p)
    ensures var f := CreateTypeDefsFilename(p);
      || f == UnknownName + TypeDefsSuffix
      || (|f| >= 9 && f[|f| - 9..|f| - 5] == ".css" && f[|f| - 5..] == TypeDefsSuffix)
  {
    var name := FileName(p).value;
    var j := LastDot(name).value;
    assert Extension(p) == Some(name[j + 1..]);
    if ToStr(name).Some? {
      var s := ToStr(name).value;
      CssSuffix(name, s, j);
      var f := s + TypeDefsSuffix;
      assert CreateTypeDefsFilename(p) == f;
      assert f[|f| - 9..|f| - 5] == s[|s| - 4..];
    } else {
      assert CreateTypeDefsFilename(p) == UnknownName + TypeDefsSuffix;
    }
  }

  /** What `handle_on_modify` ends up doing. */
  datatype Action = DidNothing | SaveTypeDefs(filename: string, contents: string)

  /**
   * `handle_on_modify`; `read` stands for `extract_file_contents`, and the
   * returned action for `save_type_defs` (file I/O is not modelled).
   */
  function HandleOnModify(paths: seq<Path>, read: Path -> string): Action
  {
    if paths == [] then DidNothing
    else
      var path := paths[0];
      if IsCssPath(path) then
        SaveTypeDefs(CreateTypeDefsFilename(path), HandleCssChange(read(path)))
      else DidNothing
  }

  /** A file is generated exactly when the first path has extension `css`; the other paths play no part. */
  lemma HandleOnModifyDecision(paths: seq<Path>, read: Path -> string)
    ensures HandleOnModify(paths, read).SaveTypeDefs? <==> |paths| > 0 && IsCssPath(paths[0])
    ensures |paths| > 0 ==> HandleOnModify(paths, read) == HandleOnModify(paths[..1], read)
    ensures HandleOnModify(paths, read).SaveTypeDefs? ==>
      HandleOnModify(paths, read) ==
        SaveTypeDefs(CreateTypeDefsFilename(paths[0]), HandleCssChange(read(paths[0])))
  {
  }

  lemma DirectoryIsDropped()
    ensures FileName(Chars("d/a.css")) == Some(Chars("a.css"))
  {
    var name := Chars("a.css");
    assert Chars("d/a.css") == Chars("d") + [Slash] + name;
    assert NoSlash(name);
    FileNameOfJoin(Chars("d"), name);
  }

  /** `d/a.css` is handled and gives `a.css.d.ts`. */
  lemma CssPathExample()
    ensures IsCssPath(Chars("d/a.css"))
    ensures CreateTypeDefsFilename(Chars("d/a.css")) == "a.css" + TypeDefsSuffix
  {
    var p := Chars("d/a.css");
    assert "a.css"[1] == '.' && "a.css"[2..] == "css";
    assert forall k :: 1 < k < 5 ==> "a.css"[k] != '.';
    DirectoryIsDropped();
    ExtensionOfChars(p, "a.css", 1);
    ToStrChars("css");
    ToStrChars("a.css");
    FilenameOfTextName(p, "a.css");
  }

  /** The extension of a file name made of characters, located by its last `.` in the characters. */
  lemma ExtensionOfChars(p: Path, s: string, j: nat)
    requires FileName(p) == Some(Chars(s))
    requires j < |s| && s[j] == '.'
    requires forall k :: j < k < |s| ==> s[k] != '.'
    ensures Extension(p) == if j == 0 then None else Some(Chars(s[j + 1..]))
  {
    var name := Chars(s);
    assert forall k :: j < k < |name| ==> name[k] != Dot by {
      forall k | j < k < |name| ensures name[k] != Dot {
        assert name[k] == Ch(s[k]);
      }
    }
    ExtensionAt(p, name, j);
    if j > 0 {
      assert name[j + 1..] == Chars(s[j + 1..]) by {
        var ext := s[j + 1..];
        assert forall k :: 0 <= k < |ext| ==> name[j + 1..][k] == Ch(ext[k]);
      }
    }
  }

  lemma FilenameOfTextName(p: Path, s: string)
    requires FileName(p).Some? && ToStr(FileName(p).value) == Some(s)
    ensures CreateTypeDefsFilename(p) == s + TypeDefsSuffix
  {
  }

  lemma LoneName(name: OsText)
    requires NoSlash(name) && name != [] && name != [Dot] && name != [Dot, Dot]
    ensures FileName(name) == Some(name)
  {
    assert SlashAt(name) == |name|;
    assert SplitSlash(name) == [name];
    assert [name][..0] == [];
  }

  /** The extension test is case-sensitive: `a.CSS` is not handled. */
  lemma UpperCaseExtensionExample()
    ensures !IsCssPath(Chars("a.CSS"))
  {
    var upper := Chars("a.CSS");
    LoneName(upper);
    ExtensionAt(upper, upper, 1);
    assert upper[2..] == Chars("CSS");
    ToStrChars("CSS");
  }

  /** `.css` has no extension (its stem would be empty), so it is not handled. */
  lemma HiddenFileExample()
    ensures !IsCssPath(Chars(".css"))
  {
    var hidden := Chars(".css");
    LoneName(hidden);
    ExtensionAt(hidden, hidden, 0);
  }
}
