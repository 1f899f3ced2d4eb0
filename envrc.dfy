/**
 * The `.envrc` rewriter: sets the value of every `export INSTANCE_ID=` line of a shell
 * environment file to a new instance id, or appends such a line when there is none.
 *
 * The file is a sequence of lines separated by '\n'. A line matches the program's
 * multi-line pattern `^(\s*export\s+INSTANCE_ID=).*$` when it is: optional whitespace,
 * `export`, at least one whitespace character, `INSTANCE_ID=`, then anything. The first
 * group ends after `INSTANCE_ID=`; the rest of the line is replaced by the quoted id.
 */
module EnvRc {
  import opened Wrappers
  import opened Text

  const Export := "export"
  const InstanceIdAssign := "INSTANCE_ID="

  function Lines(s: string): seq<string> { Split(s, '\n') }
  function Unlines(ls: seq<string>): string { Join(ls, '\n') }

  /** The pattern, stated on positions: the first whitespace run is line[..i], the second line[i + 6..j]. */
  ghost predicate PatternAt(line: string, i: nat, j: nat) {
    && i + 6 < j && j + 12 <= |line|
    && AllSpace(line[..i])
    && line[i..i + 6] == Export
    && AllSpace(line[i + 6..j])
    && line[j..j + 12] == InstanceIdAssign
  }

  ghost predicate MatchesPattern(line: string) {
    exists i: nat, j: nat :: PatternAt(line, i, j)
  }

  /** The length of the first group of the pattern, when the line matches. */
  function GroupEnd(line: string): (r: Option<nat>)
    ensures r.Some? ==> 19 <= r.value <= |line| && line[r.value - 12..r.value] == InstanceIdAssign
  {
    var i := SpaceRun(line);
    if i + 6 <= |line| && line[i..i + 6] == Export then
      var w := SpaceRun(line[i + 6..]);
      var j := i + 6 + w;
      if w >= 1 && j + 12 <= |line| && line[j..j + 12] == InstanceIdAssign then Some(j + 12) else None
    else None
  }

  /**
   * GroupEnd finds a match exactly when the pattern matches, and then the group ends
   * right after `INSTANCE_ID=`: the whitespace runs of a match are unique, since
   * neither `e` nor `I` is whitespace.
   */
  lemma GroupEndIsPattern(line: string)
    ensures GroupEnd(line).Some? <==> MatchesPattern(line)
    ensures forall i: nat, j: nat :: PatternAt(line, i, j) ==> GroupEnd(line) == Some(j + 12)
  {
    forall i: nat, j: nat | PatternAt(line, i, j) ensures GroupEnd(line) == Some(j + 12) {
      PatternDetermined(line, i, j);
    }
    if GroupEnd(line).Some? {
      GroupEndMatches(line);
    }
  }

  lemma {:induction false} GroupEndMatches(line: string)
    requires GroupEnd(line).Some?
    ensures PatternAt(line, SpaceRun(line), SpaceRun(line) + 6 + SpaceRun(line[SpaceRun(line) + 6..]))
  {
    var i := SpaceRun(line);
    var j := i + 6 + SpaceRun(line[i + 6..]);
    assert line[i + 6..j] == line[i + 6..][..j - i - 6];
  }

  lemma {:induction false} PatternDetermined(line: string, i: nat, j: nat)
    requires PatternAt(line, i, j)
    ensures SpaceRun(line) == i
    ensures SpaceRun(line[i + 6..]) == j - i - 6
  {
    assert line == line[..i] + line[i..];
    assert line[i] == line[i..i + 6][0] == 'e';
    SpaceRunOfPadded(line[..i], line[i..]);
    var t := line[i + 6..];
    assert t == line[i + 6..j] + line[j..];
    assert line[j] == line[j..j + 12][0] == 'I';
    SpaceRunOfPadded(line[i + 6..j], line[j..]);
  }

  /** Whatever follows the first group does not change whether or where the line matches. */
  lemma GroupEndKeepsPrefix(line: string, tail: string)
    requires GroupEnd(line).Some?
    ensures GroupEnd(line[..GroupEnd(line).value] + tail) == GroupEnd(line)
  {
    var g := GroupEnd(line).value;
    var l2 := line[..g] + tail;
    GroupEndIsPattern(line);
    var i: nat, j: nat :| PatternAt(line, i, j);
    assert l2[..g] == line[..g];
    assert l2[..i] == line[..i] && l2[i..i + 6] == line[i..i + 6];
    assert l2[i + 6..j] == line[i + 6..j] && l2[j..j + 12] == line[j..j + 12];
    assert PatternAt(l2, i, j);
    GroupEndIsPattern(l2);
  }

  // ---------------------------------------------------------------------------
  // The transform

  function Quoted(newId: string): string { "'" + newId + "'" }

  /** The line appended when no line matches. */
  function ExportLine(newId: string): string { Export + " " + InstanceIdAssign + Quoted(newId) }

  /** One line after substitution: the first group kept, the rest of the line replaced by the quoted id. */
  function RewriteLine(line: string, newId: string): (r: string)
    ensures GroupEnd(line).None? ==> r == line
    ensures GroupEnd(line).Some? ==> var g := GroupEnd(line).value;
      |r| > g && r[..g] == line[..g] && r[g - 12..] == InstanceIdAssign + Quoted(newId)
  {
    match GroupEnd(line)
    case Some(g) => line[..g] + Quoted(newId)
    case None => line
  }

  /** `subn` over the whole text: every line rewritten on its own. */
  function RewriteLines(ls: seq<string>, newId: string): (r: seq<string>)
    ensures |r| == |ls|
    ensures forall k :: 0 <= k < |ls| && GroupEnd(ls[k]).None? ==> r[k] == ls[k]
    ensures forall k :: 0 <= k < |ls| && GroupEnd(ls[k]).Some? ==>
      r[k] == ls[k][..GroupEnd(ls[k]).value] + Quoted(newId)
  {
    seq(|ls|, k requires 0 <= k < |ls| => RewriteLine(ls[k], newId))
  }

  /** The number of matching lines, the `n` of `subn`. */
  function CountMatches(ls: seq<string>): (n: nat)
    ensures n <= |ls|
  {
    if |ls| == 0 then 0 else (if GroupEnd(ls[0]).Some? then 1 else 0) + CountMatches(ls[1..])
  }

  predicate NoMatch(ls: seq<string>) {
    forall k :: 0 <= k < |ls| ==> GroupEnd(ls[k]).None?
  }

  lemma {:induction false} CountMatchesZero(ls: seq<string>)
    ensures CountMatches(ls) == 0 <==> NoMatch(ls)
  {
    if |ls| > 0 {
      CountMatchesZero(ls[1..]);
      if NoMatch(ls[1..]) && GroupEnd(ls[0]).None? {
        forall k | 0 <= k < |ls| ensures GroupEnd(ls[k]).None? {
          if k > 0 { assert ls[k] == ls[1..][k - 1]; }
        }
      }
      if NoMatch(ls) {
        assert GroupEnd(ls[0]).None?;
        forall k | 0 <= k < |ls| - 1 ensures GroupEnd(ls[1..][k]).None? { assert ls[1..][k] == ls[k + 1]; }
      }
    }
  }

  /** `pat.subn(replacement, s)`: the substituted text and the number of substitutions. */
  function Substitute(s: string, newId: string): (r: (string, nat))
    ensures r.1 <= |Lines(s)|
    ensures r.1 == 0 <==> NoMatch(Lines(s))
  {
    CountMatchesZero(Lines(s));
    (Unlines(RewriteLines(Lines(s), newId)), CountMatches(Lines(s)))
  }

  /** Python's `s.rstrip("\n")`: the text with its trailing line feeds removed. */
  function RStripNewlines(s: string): (r: string)
    ensures |r| <= |s| && r == s[..|r|]
    ensures forall k :: |r| <= k < |s| ==> s[k] == '\n'
    ensures |r| > 0 ==> r[|r| - 1] != '\n'
  {
    if |s| > 0 && s[|s| - 1] == '\n' then RStripNewlines(s[..|s| - 1]) else s
  }

  /** The new file content for the existing content `s`. */
  function Transform(s: string, newId: string): (r: string)
    ensures NoMatch(Lines(s)) ==> r == RStripNewlines(s) + "\n" + ExportLine(newId) + "\n"
    ensures !NoMatch(Lines(s)) ==> r == Unlines(RewriteLines(Lines(s), newId))
  {
    var (out, n) := Substitute(s, newId);
    if n == 0 then RStripNewlines(s) + "\n" + ExportLine(newId) + "\n" else out
  }

  /**
   * The script's `main` without its I/O: `newId` is the `NEW_ID` variable, `existing`
   * the file's content when it exists. A missing or empty id is an error and leaves
   * nothing to write; otherwise the result is the content to write back.
   */
  function Main(newId: Option<string>, existing: Option<string>): (r: Result<string, string>)
    ensures r.Failure? <==> newId.None? || newId.value == ""
    ensures r.Failure? ==> r.error == "NEW_ID is required"
    ensures r.Success? ==> r.value == Transform(existing.GetOr(""), newId.value)
  {
    if newId.None? || newId.value == "" then Failure("NEW_ID is required")
    else Success(Transform(if existing.Some? then existing.value else "", newId.value))
  }

  // ---------------------------------------------------------------------------
  // Properties of the transform

  /** A line with its value replaced has no line feed when the id has none. */
  lemma RewriteLineNoNewline(line: string, newId: string)
    requires '\n' !in line && '\n' !in newId
    ensures '\n' !in RewriteLine(line, newId)
  {
    var r := RewriteLine(line, newId);
    if GroupEnd(line).Some? {
      var g := GroupEnd(line).value;
      assert r == line[..g] + Quoted(newId);
      forall k | 0 <= k < |r| ensures r[k] != '\n' {
        if k < g { assert r[k] == line[k]; }
        else { assert r[k] == Quoted(newId)[k - g]; }
      }
    }
  }

  lemma RewriteLinesNoNewline(ls: seq<string>, newId: string)
    requires forall k :: 0 <= k < |ls| ==> '\n' !in ls[k]
    requires '\n' !in newId
    ensures forall k :: 0 <= k < |ls| ==> '\n' !in RewriteLines(ls, newId)[k]
  {
    forall k | 0 <= k < |ls| ensures '\n' !in RewriteLines(ls, newId)[k] {
      RewriteLineNoNewline(ls[k], newId);
    }
  }

  /** A rewritten line still matches, at the same place, so rewriting it again changes nothing. */
  lemma RewriteLineIdempotent(line: string, newId: string)
    ensures GroupEnd(RewriteLine(line, newId)) == GroupEnd(line)
    ensures RewriteLine(RewriteLine(line, newId), newId) == RewriteLine(line, newId)
  {
    if GroupEnd(line).Some? {
      var g := GroupEnd(line).value;
      GroupEndKeepsPrefix(line, Quoted(newId));
      var r := line[..g] + Quoted(newId);
      assert r[..g] == line[..g];
    }
  }

  /**
   * When some line matches, the text keeps its lines: every matching line keeps its
   * `export INSTANCE_ID=` prefix and gets the quoted id as its value, and every other
   * line is left exactly as it was.
   */
  lemma TransformReplaces(s: string, newId: string)
    requires !NoMatch(Lines(s))
    requires '\n' !in newId
    ensures |Lines(Transform(s, newId))| == |Lines(s)|
    ensures forall k, i: nat, j: nat :: 0 <= k < |Lines(s)| && PatternAt(Lines(s)[k], i, j) ==>
      Lines(Transform(s, newId))[k] == Lines(s)[k][..j + 12] + Quoted(newId)
    ensures forall k :: 0 <= k < |Lines(s)| && !MatchesPattern(Lines(s)[k]) ==>
      Lines(Transform(s, newId))[k] == Lines(s)[k]
  {
    var ls := Lines(s);
    CountMatchesZero(ls);
    var r := RewriteLines(ls, newId);
    assert Transform(s, newId) == Unlines(r);
    RewriteLinesNoNewline(ls, newId);
    SplitJoin(r, '\n');
    forall k | 0 <= k < |ls| ensures GroupEnd(ls[k]).Some? <==> MatchesPattern(ls[k]) {
      GroupEndIsPattern(ls[k]);
    }
    forall k, i: nat, j: nat | 0 <= k < |ls| && PatternAt(ls[k], i, j)
      ensures r[k] == ls[k][..j + 12] + Quoted(newId)
    {
      GroupEndIsPattern(ls[k]);
    }
  }

  /** Appending a line feed to a text appends an empty last line. */
  lemma LinesAppendNewline(a: string)
    ensures Lines(a + "\n") == Lines(a) + [""]
  {
    var ls := Lines(a);
    JoinSplit(a, '\n');
    JoinAppend(ls, [""], '\n');
    assert Join(ls + [""], '\n') == a + "\n";
    SplitJoin(ls + [""], '\n');
  }

  /** The lines left after stripping trailing line feeds are the first lines of the text. */
  lemma {:induction false} LinesRStrip(s: string)
    ensures Lines(RStripNewlines(s)) <= Lines(s)
    decreases |s|
  {
    if |s| > 0 && s[|s| - 1] == '\n' {
      var t := s[..|s| - 1];
      assert s == t + "\n";
      LinesAppendNewline(t);
      LinesRStrip(t);
    }
  }

  /** The appended line matches, with its group ending right after `INSTANCE_ID=`. */
  lemma ExportLineMatches(newId: string)
    ensures GroupEnd(ExportLine(newId)) == Some(19)
    ensures RewriteLine(ExportLine(newId), newId) == ExportLine(newId)
  {
    var e := ExportLine(newId);
    assert e[..0] == "" && e[0..6] == Export && e[6..7] == " " && e[7..19] == InstanceIdAssign;
    assert PatternAt(e, 0, 7);
    GroupEndIsPattern(e);
    assert e[..19] + Quoted(newId) == e;
  }

  /**
   * When no line matches, the trailing line feeds are dropped and exactly one export
   * line is added: the lines of the result are the text's own lines (without the empty
   * lines the line feeds made), the export line, and the empty line after the final
   * line feed.
   */
  lemma {:induction false} TransformAppends(s: string, newId: string)
    requires NoMatch(Lines(s))
    ensures var out := Transform(s, newId); |out| >= 2 && out[|out| - 1] == '\n' && out[|out| - 2] != '\n'
    ensures Lines(RStripNewlines(s)) <= Lines(s)
    ensures '\n' !in newId ==> Lines(Transform(s, newId)) == Lines(RStripNewlines(s)) + [ExportLine(newId), ""]
  {
    var r := RStripNewlines(s);
    var e := ExportLine(newId);
    var out := Transform(s, newId);
    assert out == r + "\n" + e + "\n";
    assert out[|out| - 2] == e[|e| - 1] == '\'';
    if '\n' !in newId {
      ExportLineNoNewline(newId);
      AppendedLines(r, e);
    }
    LinesRStrip(s);
  }

  lemma AppendedLines(r: string, e: string)
    requires '\n' !in e
    ensures Lines(r + "\n" + e + "\n") == Lines(r) + [e, ""]
  {
    var ls := Lines(r) + [e, ""];
    JoinSplit(r, '\n');
    JoinAppend(Lines(r), [e, ""], '\n');
    assert Join([e, ""], '\n') == e + "\n" + "";
    assert Join(ls, '\n') == r + "\n" + e + "\n";
    SplitJoin(ls, '\n');
  }

  lemma ExportLineNoNewline(newId: string)
    requires '\n' !in newId
    ensures '\n' !in ExportLine(newId)
  {
    var e := ExportLine(newId);
    assert e == "export INSTANCE_ID='" + newId + "'";
    forall k | 0 <= k < |e| ensures e[k] != '\n' {
      if 20 <= k < 20 + |newId| { assert e[k] == newId[k - 20]; }
    }
  }

  /** The result always holds a matching line whose value is the quoted id. */
  predicate SetsId(line: string, newId: string) {
    GroupEnd(line).Some? && line[GroupEnd(line).value..] == Quoted(newId)
  }

  lemma {:induction false} TransformSetsId(s: string, newId: string)
    requires '\n' !in newId
    ensures exists k :: 0 <= k < |Lines(Transform(s, newId))| && SetsId(Lines(Transform(s, newId))[k], newId)
  {
    if NoMatch(Lines(s)) {
      AppendedSetsId(s, newId);
    } else {
      ReplacedSetsId(s, newId);
    }
  }

  lemma {:induction false} AppendedSetsId(s: string, newId: string)
    requires '\n' !in newId
    requires NoMatch(Lines(s))
    ensures exists k :: 0 <= k < |Lines(Transform(s, newId))| && SetsId(Lines(Transform(s, newId))[k], newId)
  {
    var out := Transform(s, newId);
    TransformAppends(s, newId);
    ExportLineMatches(newId);
    var k := |Lines(RStripNewlines(s))|;
    assert Lines(out)[k] == ExportLine(newId);
  }

  lemma {:induction false} ReplacedSetsId(s: string, newId: string)
    requires '\n' !in newId
    requires !NoMatch(Lines(s))
    ensures exists k :: 0 <= k < |Lines(Transform(s, newId))| && SetsId(Lines(Transform(s, newId))[k], newId)
  {
    var ls := Lines(s);
    var k :| 0 <= k < |ls| && GroupEnd(ls[k]).Some?;
    ReplacedLines(s, newId);
    var line := RewriteLines(ls, newId)[k];
    var g := GroupEnd(ls[k]).value;
    assert line == RewriteLine(ls[k], newId);
    RewriteLineIdempotent(ls[k], newId);
    assert line == ls[k][..g] + Quoted(newId);
    assert line[g..] == Quoted(newId);
  }

  /** Running the rewriter twice with the same id gives the same file as running it once. */
  lemma TransformIdempotent(s: string, newId: string)
    requires '\n' !in newId
    ensures Transform(Transform(s, newId), newId) == Transform(s, newId)
  {
    if NoMatch(Lines(s)) {
      AppendedIdempotent(s, newId);
    } else {
      ReplacedIdempotent(s, newId);
    }
  }

  /** The appended export line matches, so the second run only rewrites it to itself. */
  lemma AppendedIdempotent(s: string, newId: string)
    requires '\n' !in newId
    requires NoMatch(Lines(s))
    ensures Transform(Transform(s, newId), newId) == Transform(s, newId)
  {
    var out := Transform(s, newId);
    TransformAppends(s, newId);
    var p := Lines(RStripNewlines(s));
    var e := ExportLine(newId);
    var lo := p + [e, ""];
    assert Lines(out) == lo;
    ExportLineMatches(newId);
    assert !NoMatch(lo) by { assert lo[|p|] == e; }
    CountMatchesZero(lo);
    assert NoMatch(p) by {
      forall k | 0 <= k < |p| ensures GroupEnd(p[k]).None? { assert p[k] == Lines(s)[k]; }
    }
    AppendedLinesFixed(p, e, newId);
    JoinSplit(out, '\n');
  }

  /** Lines that do not match, then the export line and an empty line, are left as they are. */
  lemma AppendedLinesFixed(p: seq<string>, e: string, newId: string)
    requires NoMatch(p)
    requires RewriteLine(e, newId) == e
    ensures RewriteLines(p + [e, ""], newId) == p + [e, ""]
  {
    var lo := p + [e, ""];
    forall k | 0 <= k < |lo| ensures RewriteLine(lo[k], newId) == lo[k] {
      if k < |p| { assert lo[k] == p[k]; }
    }
  }

  /** Rewritten lines keep matching at the same place, and rewriting them again changes nothing. */
  lemma ReplacedIdempotent(s: string, newId: string)
    requires '\n' !in newId
    requires !NoMatch(Lines(s))
    ensures Transform(Transform(s, newId), newId) == Transform(s, newId)
  {
    var r := RewriteLines(Lines(s), newId);
    var out := Transform(s, newId);
    ReplacedLines(s, newId);
    RewriteLinesIdempotent(Lines(s), newId);
    CountMatchesZero(r);
    assert Transform(out, newId) == Unlines(RewriteLines(r, newId));
  }

  /** When some line matches, the output is the rewritten lines, and its lines are those. */
  lemma ReplacedLines(s: string, newId: string)
    requires '\n' !in newId
    requires !NoMatch(Lines(s))
    ensures Transform(s, newId) == Unlines(RewriteLines(Lines(s), newId))
    ensures Lines(Transform(s, newId)) == RewriteLines(Lines(s), newId)
  {
    var ls := Lines(s);
    CountMatchesZero(ls);
    RewriteLinesNoNewline(ls, newId);
    SplitJoin(RewriteLines(ls, newId), '\n');
  }

  lemma RewriteLinesIdempotent(ls: seq<string>, newId: string)
    ensures RewriteLines(RewriteLines(ls, newId), newId) == RewriteLines(ls, newId)
    ensures NoMatch(RewriteLines(ls, newId)) <==> NoMatch(ls)
  {
    var r := RewriteLines(ls, newId);
    forall k | 0 <= k < |ls| ensures GroupEnd(r[k]) == GroupEnd(ls[k]) && RewriteLine(r[k], newId) == r[k] {
      RewriteLineIdempotent(ls[k], newId);
    }
    assert RewriteLines(r, newId) == r;
  }
}
