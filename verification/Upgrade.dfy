/** The WebSocket upgrade parser of `crates/sb_core/upgrade.rs`: a buffering state machine with a
    one-packet fast path. The header scanner stands for `httparse::parse_headers` with room for sixteen
    headers; how a single line is read is a parameter. */
module Upgrade {
  import opened Common
  import opened Bytes

  datatype Header = Header(name: seq<byte>, value: seq<byte>)

  /** How one header line, without its line ending, is read. */
  type LineGrammar = seq<byte> -> Option<Header>

  const CR: byte := 13
  const MAX_HEADERS: nat := 16

  /** "HTTP/1.1 101 " */
  const STATUS_PREFIX: seq<byte> := [72, 84, 84, 80, 47, 49, 46, 49, 32, 49, 48, 49, 32]

  // ----- the header scanner -----

  /** Index of the first newline. */
  function Newline(b: seq<byte>): (r: Option<nat>)
    ensures r.Some? ==> r.value < |b| && b[r.value] == LF && LF !in b[..r.value]
    ensures r.None? ==> LF !in b
  {
    PositionSpec(b, LF);
    Position(b, LF)
  }

  lemma NewlineUnique(b: seq<byte>, i: nat)
    requires i < |b| && b[i] == LF && LF !in b[..i]
    ensures Newline(b) == Some(i)
  {
    PositionUnique(b, LF, i);
  }

  /** `find_newline`. */
  method FindNewline(slice: seq<byte>) returns (r: Option<nat>)
    ensures r == Newline(slice)
  {
    for i := 0 to |slice|
      invariant LF !in slice[..i]
    {
      if slice[i] == LF {
        NewlineUnique(slice, i);
        return Some(i);
      }
    }
    return None;
  }

  datatype Scan = Scanned(used: nat, headers: seq<Header>) | Partial | Malformed | TooManyHeaders

  function StripCR(line: seq<byte>): seq<byte> {
    if line != [] && line[|line| - 1] == CR then line[..|line| - 1] else line
  }

  /** The line that starts at `from`, without its ending, and where the next one starts. */
  function LineAt(b: seq<byte>, from: nat): (r: Option<(seq<byte>, nat)>)
    requires from <= |b|
    ensures r.Some? ==> from < r.value.1 <= |b|
  {
    match Newline(b[from..])
    case None => None
    case Some(k) => Some((StripCR(b[from..][..k]), from + k + 1))
  }

  /** Reads header lines from `from` up to the first blank one. */
  function ScanHeaders(g: LineGrammar, b: seq<byte>, from: nat, acc: seq<Header>): (r: Scan)
    requires from <= |b|
    ensures r.Scanned? ==> from < r.used <= |b|
    decreases |b| - from
  {
    match LineAt(b, from)
    case None => Partial
    case Some((line, next)) =>
      if line == [] then Scanned(next, acc)
      else
        match g(line)
        case None => Malformed
        case Some(h) =>
          if |acc| == MAX_HEADERS then TooManyHeaders else ScanHeaders(g, b, next, acc + [h])
  }

  /** More bytes do not change a line that has ended. */
  lemma LineIsStable(b: seq<byte>, x: seq<byte>, from: nat)
    requires from <= |b| && LineAt(b, from).Some?
    ensures LineAt(b + x, from) == LineAt(b, from)
  {
    var k := Newline(b[from..]).value;
    assert (b + x)[from..] == b[from..] + x;
    assert (b[from..] + x)[..k] == b[from..][..k];
    NewlineUnique(b[from..] + x, k);
  }

  /** Once the scanner has an answer, more bytes do not change it. */
  lemma {:induction false} ScanIsStable(g: LineGrammar, b: seq<byte>, x: seq<byte>, from: nat, acc: seq<Header>)
    requires from <= |b| && !ScanHeaders(g, b, from, acc).Partial?
    ensures ScanHeaders(g, b + x, from, acc) == ScanHeaders(g, b, from, acc)
    decreases |b| - from
  {
    LineIsStable(b, x, from);
    var (line, next) := LineAt(b, from).value;
    if line != [] && g(line).Some? && |acc| != MAX_HEADERS {
      ScanIsStable(g, b, x, next, acc + [g(line).value]);
    }
  }

  /** A blank line starts at `j`, just after a newline. */
  predicate BlankLineAt(b: seq<byte>, j: nat) {
    && 0 < j < |b| && b[j - 1] == LF
    && (b[j] == LF || (j + 1 < |b| && b[j] == CR && b[j + 1] == LF))
  }

  lemma LineBefore(b: seq<byte>, from: nat, end: nat)
    requires from <= end < |b| && b[end] == LF
    ensures LineAt(b, from).Some? && LineAt(b, from).value.1 <= end + 1
  {
    assert b[from..][end - from] == LF;
  }

  lemma BlankIsBlank(b: seq<byte>, j: nat)
    requires BlankLineAt(b, j)
    ensures LineAt(b, j).Some? && LineAt(b, j).value.0 == []
  {
    LineBefore(b, j, if b[j] == LF then j else j + 1);
  }

  /** With a blank line ahead the scanner does not ask for more. */
  lemma {:induction false} ScanDecides(g: LineGrammar, b: seq<byte>, from: nat, acc: seq<Header>, j: nat)
    requires from <= j && BlankLineAt(b, j)
    ensures !ScanHeaders(g, b, from, acc).Partial?
    decreases |b| - from
  {
    if from == j {
      BlankIsBlank(b, j);
    } else {
      LineBefore(b, from, j - 1);
      var (line, next) := LineAt(b, from).value;
      if line != [] && g(line).Some? && |acc| != MAX_HEADERS {
        ScanDecides(g, b, next, acc + [g(line).value], j);
      }
    }
  }

  // ----- what a byte stream means -----

  datatype Answer =
    | NeedMore
    | Upgraded(headers: seq<Header>, leftover: seq<byte>)
    | InvalidStatus
    | InvalidHeaders
    | AlreadyComplete

  predicate Contains(b: seq<byte>, pattern: seq<byte>) {
    exists i: nat | i <= |b| :: OccursAt(b, pattern, i)
  }

  predicate OccursAt(b: seq<byte>, pattern: seq<byte>, i: nat) {
    i + |pattern| <= |b| && b[i..i + |pattern|] == pattern
  }

  predicate EndsWith(b: seq<byte>, pattern: seq<byte>) {
    |b| >= |pattern| && b[|b| - |pattern|..] == pattern
  }

  const CRLF_CRLF: seq<byte> := [CR, LF, CR, LF]
  const LF_LF: seq<byte> := [LF, LF]

  predicate HasTerminator(b: seq<byte>) {
    Contains(b, CRLF_CRLF) || Contains(b, LF_LF)
  }

  predicate StatusOk(status: seq<byte>) {
    STATUS_PREFIX <= status
  }

  /** `parse_response` and the split after it. */
  function ParseResponse(g: LineGrammar, b: seq<byte>): Answer {
    var scan := ScanHeaders(g, b, 0, []);
    if scan.Scanned? then Upgraded(scan.headers, b[scan.used..]) else InvalidHeaders
  }

  function HeadersVerdict(g: LineGrammar, b: seq<byte>): Answer {
    if HasTerminator(b) then ParseResponse(g, b) else NeedMore
  }

  /** The answer to a whole byte string, however it arrives. */
  function Verdict(g: LineGrammar, b: seq<byte>): Answer {
    match Newline(b)
    case None => NeedMore
    case Some(i) => if StatusOk(b[..i + 1]) then HeadersVerdict(g, b[i + 1..]) else InvalidStatus
  }

  /** The answer with the bytes that were not fed appended to the leftover. */
  function Join(a: Answer, unfed: seq<byte>): Answer {
    if a.Upgraded? then a.(leftover := a.leftover + unfed) else a
  }

  lemma TerminatorHasBlankLine(b: seq<byte>) returns (j: nat)
    requires HasTerminator(b)
    ensures BlankLineAt(b, j)
  {
    if Contains(b, LF_LF) {
      var i: nat :| i <= |b| && OccursAt(b, LF_LF, i);
      assert b[i..i + 2][0] == LF && b[i..i + 2][1] == LF;
      j := i + 1;
    } else {
      var i: nat :| i <= |b| && OccursAt(b, CRLF_CRLF, i);
      assert b[i..i + 4][1] == LF && b[i..i + 4][2] == CR && b[i..i + 4][3] == LF;
      j := i + 2;
    }
  }

  lemma ContainsExtends(b: seq<byte>, x: seq<byte>, pattern: seq<byte>)
    requires Contains(b, pattern)
    ensures Contains(b + x, pattern)
  {
    var i: nat :| i <= |b| && OccursAt(b, pattern, i);
    assert (b + x)[i..i + |pattern|] == b[i..i + |pattern|];
    assert OccursAt(b + x, pattern, i);
  }

  lemma TerminatorExtends(b: seq<byte>, x: seq<byte>)
    requires HasTerminator(b)
    ensures HasTerminator(b + x)
  {
    if Contains(b, CRLF_CRLF) { ContainsExtends(b, x, CRLF_CRLF); } else { ContainsExtends(b, x, LF_LF); }
  }

  lemma TerminatedScan(g: LineGrammar, b: seq<byte>, x: seq<byte>)
    requires HasTerminator(b)
    ensures !ScanHeaders(g, b, 0, []).Partial? && ScanHeaders(g, b + x, 0, []) == ScanHeaders(g, b, 0, [])
  {
    var j := TerminatorHasBlankLine(b);
    ScanDecides(g, b, 0, [], j);
    ScanIsStable(g, b, x, 0, []);
  }

  lemma HeadersVerdictExtends(g: LineGrammar, b: seq<byte>, x: seq<byte>)
    requires HasTerminator(b)
    ensures HeadersVerdict(g, b + x) == Join(HeadersVerdict(g, b), x)
  {
    TerminatorExtends(b, x);
    TerminatedScan(g, b, x);
    var scan := ScanHeaders(g, b, 0, []);
    if scan.Scanned? { DropFromConcat(b, x, scan.used); }
  }

  lemma DropFromConcat(b: seq<byte>, x: seq<byte>, n: nat)
    requires n <= |b|
    ensures (b + x)[n..] == b[n..] + x
  {
  }

  /** The verdict on a status line, which ends in its first newline, and what follows it. */
  lemma VerdictOfParts(g: LineGrammar, status: seq<byte>, rest: seq<byte>)
    requires Newline(status) == Some(|status| - 1)
    ensures Verdict(g, status + rest) == if StatusOk(status) then HeadersVerdict(g, rest) else InvalidStatus
    ensures Newline(status + rest) == Some(|status| - 1)
    ensures (status + rest)[..|status|] == status && (status + rest)[|status|..] == rest
  {
    assert (status + rest)[..|status| - 1] == status[..|status| - 1];
    NewlineUnique(status + rest, |status| - 1);
    assert (status + rest)[..|status|] == status && (status + rest)[|status|..] == rest;
  }

  /** Bytes without a newline only shift where the first newline is. */
  lemma NewlineAfter(a: seq<byte>, b: seq<byte>)
    requires LF !in a
    ensures Newline(a + b) == match Newline(b) case None => None case Some(i) => Some(|a| + i)
  {
    if Newline(b).Some? {
      var i := Newline(b).value;
      assert (a + b)[..|a| + i] == a + b[..i];
      NewlineUnique(a + b, |a| + i);
    }
  }

  /** A response without headers: its blank line directly follows the status line, and the search for the end
      of the headers starts after that. What follows is held back until it holds such an end itself. */
  lemma HeaderlessResponse(g: LineGrammar, status: seq<byte>, blank: seq<byte>, x: seq<byte>)
    requires Newline(status) == Some(|status| - 1) && StatusOk(status) && (blank == [CR, LF] || blank == [LF])
    ensures Verdict(g, status + (blank + x)) == if HasTerminator(blank + x) then Upgraded([], x) else NeedMore
    ensures Verdict(g, status + blank) == NeedMore
  {
    VerdictOfParts(g, status, blank + x);
    VerdictOfParts(g, status, blank);
    var b := blank + x;
    assert b[..|blank| - 1] == blank[..|blank| - 1] && b[0..] == b;
    NewlineUnique(b, |blank| - 1);
    assert b[|blank|..] == x;
  }

  lemma PartsExtend(g: LineGrammar, status: seq<byte>, rest: seq<byte>, x: seq<byte>)
    requires Newline(status) == Some(|status| - 1) && Verdict(g, status + rest) != NeedMore
    ensures Verdict(g, status + (rest + x)) == Join(Verdict(g, status + rest), x)
  {
    VerdictOfParts(g, status, rest);
    VerdictOfParts(g, status, rest + x);
    if StatusOk(status) { HeadersVerdictExtends(g, rest, x); }
  }

  lemma CutAt(b: seq<byte>, x: seq<byte>, n: nat)
    requires n <= |b|
    ensures b == b[..n] + b[n..] && b + x == b[..n] + (b[n..] + x)
  {
  }

  /** A verdict, once reached, stands: more bytes only grow the leftover. */
  lemma VerdictExtends(g: LineGrammar, b: seq<byte>, x: seq<byte>)
    requires Verdict(g, b) != NeedMore
    ensures Verdict(g, b + x) == Join(Verdict(g, b), x)
  {
    var i := Newline(b).value;
    StatusLineEnds(b, i);
    CutAt(b, x, i + 1);
    PartsExtend(g, b[..i + 1], b[i + 1..], x);
  }

  /** The first verdict reached while feeding chunks, joined with what was not fed. */
  function Feed(g: LineGrammar, fed: seq<byte>, chunks: seq<seq<byte>>): Answer
    decreases |chunks|
  {
    if chunks == [] then NeedMore
    else
      var a := Verdict(g, fed + chunks[0]);
      if a == NeedMore then Feed(g, fed + chunks[0], chunks[1..]) else Join(a, Flatten(chunks[1..]))
  }

  lemma {:induction false} FeedIsVerdict(g: LineGrammar, fed: seq<byte>, chunks: seq<seq<byte>>)
    requires Verdict(g, fed) == NeedMore
    ensures Feed(g, fed, chunks) == Verdict(g, fed + Flatten(chunks))
    decreases |chunks|
  {
    if chunks == [] {
      assert fed + Flatten(chunks) == fed;
    } else {
      var b := fed + chunks[0];
      assert fed + Flatten(chunks) == b + Flatten(chunks[1..]);
      if Verdict(g, b) == NeedMore {
        FeedIsVerdict(g, b, chunks[1..]);
      } else {
        VerdictExtends(g, b, Flatten(chunks[1..]));
      }
    }
  }

  /** Two ways of cutting the same bytes give the same verdict, the same headers, and the same bytes
      after them. */
  lemma ChunkingDoesNotMatter(g: LineGrammar, chunks: seq<seq<byte>>, chunks': seq<seq<byte>>)
    requires Flatten(chunks) == Flatten(chunks')
    ensures Feed(g, [], chunks) == Feed(g, [], chunks')
  {
    FeedIsVerdict(g, [], chunks);
    FeedIsVerdict(g, [], chunks');
  }

  // ----- what a response says -----

  /** A line without its ending, and whether it ends in CRLF or in LF. */
  datatype Line = Line(text: seq<byte>, crlf: bool)

  /** The line reads back from its bytes. */
  predicate IsLine(l: Line) {
    LF !in l.text && (l.crlf || l.text == [] || l.text[|l.text| - 1] != CR)
  }

  function LineBytes(l: Line): seq<byte> {
    l.text + if l.crlf then [CR, LF] else [LF]
  }

  function Written(lines: seq<Line>): seq<byte> {
    if lines == [] then [] else LineBytes(lines[0]) + Written(lines[1..])
  }

  /** Header lines, none of them blank. */
  predicate AreHeaderLines(lines: seq<Line>) {
    forall i | 0 <= i < |lines| :: IsLine(lines[i]) && lines[i].text != []
  }

  /** The headers are what the grammar reads in the lines, in order. */
  ghost predicate AreReadAs(g: LineGrammar, lines: seq<Line>, headers: seq<Header>) {
    |headers| == |lines| && forall i | 0 <= i < |lines| :: g(lines[i].text) == Some(headers[i])
  }

  /** The line stands in the bytes at `from`. */
  predicate LineStandsAt(b: seq<byte>, from: nat, l: Line) {
    from + |LineBytes(l)| <= |b| && b[from..from + |LineBytes(l)|] == LineBytes(l)
  }

  lemma LineIsRead(b: seq<byte>, from: nat, l: Line)
    requires LineStandsAt(b, from, l) && IsLine(l)
    ensures LineAt(b, from) == Some((l.text, from + |LineBytes(l)|))
  {
    var t, k := b[from..], |LineBytes(l)| - 1;
    assert t[..k + 1] == LineBytes(l);
    assert t[..k] == LineBytes(l)[..k] && t[k] == LineBytes(l)[k] == LF;
    assert l.crlf ==> LineBytes(l)[..k] == l.text + [CR];
    assert !l.crlf ==> LineBytes(l)[..k] == l.text;
    NewlineUnique(t, k);
  }

  // A scanner of lines, apart from how lines are found.

  type LineFinder = nat -> Option<(seq<byte>, nat)>
  type Scanner = (nat, seq<Header>) -> Scan

  /** The lines start at these positions, the last of which is where the next one would. */
  ghost predicate StartAt(lineAt: LineFinder, starts: seq<nat>, lines: seq<Line>) {
    && |starts| == |lines| + 1
    && forall i | 0 <= i < |lines| :: lineAt(starts[i]) == Some((lines[i].text, starts[i + 1]))
  }

  /** What a scanner does with the line it finds. */
  function WithLine(scan: Scanner, found: Option<(seq<byte>, nat)>, a: seq<Header>, g: LineGrammar): Scan {
    match found
    case None => Partial
    case Some((line, next)) =>
      if line == [] then Scanned(next, a)
      else
        match g(line)
        case None => Malformed
        case Some(h) => if |a| == MAX_HEADERS then TooManyHeaders else scan(next, a + [h])
  }

  ghost predicate ScansLines(scan: Scanner, lineAt: LineFinder, g: LineGrammar) {
    forall f: nat, a: seq<Header> :: scan(f, a) == WithLine(scan, lineAt(f), a, g)
  }

  /** The scan after the first `k` lines, which read as `headers`. */
  lemma {:induction false} Follow(scan: Scanner, lineAt: LineFinder, g: LineGrammar, starts: seq<nat>,
                                  lines: seq<Line>, headers: seq<Header>, k: nat)
    requires ScansLines(scan, lineAt, g) && StartAt(lineAt, starts, lines) && k <= |lines| && k <= MAX_HEADERS
    requires AreHeaderLines(lines) && AreReadAs(g, lines[..k], headers)
    ensures scan(starts[0], []) == scan(starts[k], headers)
    decreases k
  {
    if k == 0 {
      assert headers == [];
    } else {
      var l, before := lines[k - 1], headers[..k - 1];
      assert lines[..k][..k - 1] == lines[..k - 1] && lines[..k][k - 1] == l;
      Follow(scan, lineAt, g, starts, lines, before, k - 1);
      assert lineAt(starts[k - 1]) == Some((l.text, starts[k])) && g(l.text) == Some(headers[k - 1]);
      assert before + [headers[k - 1]] == headers;
      assert scan(starts[k - 1], before) == scan(starts[k], headers);
    }
  }

  /** The line at `i` stops the scan: the grammar refuses it, or it is one too many. */
  ghost predicate Stops(g: LineGrammar, lines: seq<Line>, i: nat, headers: seq<Header>) {
    && i < |lines| && i <= MAX_HEADERS && AreReadAs(g, lines[..i], headers)
    && (g(lines[i].text).None? || i == MAX_HEADERS)
  }

  lemma FollowStops(scan: Scanner, lineAt: LineFinder, g: LineGrammar, starts: seq<nat>, lines: seq<Line>, i: nat,
                    headers: seq<Header>)
    requires ScansLines(scan, lineAt, g) && StartAt(lineAt, starts, lines) && AreHeaderLines(lines)
    requires Stops(g, lines, i, headers)
    ensures scan(starts[0], []).Malformed? || scan(starts[0], []).TooManyHeaders?
  {
    Follow(scan, lineAt, g, starts, lines, headers, i);
    assert lineAt(starts[i]) == Some((lines[i].text, starts[i + 1]));
  }

  // The lines of written bytes.

  function FinderOf(b: seq<byte>): LineFinder {
    (f: nat) => if f <= |b| then LineAt(b, f) else None
  }

  function ScannerOf(g: LineGrammar, b: seq<byte>): Scanner {
    (f: nat, a: seq<Header>) => if f <= |b| then ScanHeaders(g, b, f, a) else Partial
  }

  lemma ScannerScans(g: LineGrammar, b: seq<byte>)
    ensures ScansLines(ScannerOf(g, b), FinderOf(b), g)
  {
  }

  lemma {:induction false} StartsOf(b: seq<byte>, from: nat, lines: seq<Line>, rest: seq<byte>)
    returns (starts: seq<nat>)
    requires from <= |b| && b[from..] == Written(lines) + rest && forall l <- lines :: IsLine(l)
    ensures StartAt(FinderOf(b), starts, lines) && starts[0] == from
    ensures starts[|lines|] <= |b| && b[starts[|lines|]..] == rest
    decreases |lines|
  {
    if lines == [] {
      starts := [from];
      assert Written(lines) + rest == rest;
    } else {
      var n := |LineBytes(lines[0])|;
      FirstStands(b, from, lines, rest);
      LineIsRead(b, from, lines[0]);
      var later := StartsOf(b, from + n, lines[1..], rest);
      starts := [from] + later;
      StartsCons(FinderOf(b), from, later, lines);
    }
  }

  lemma FirstStands(b: seq<byte>, from: nat, lines: seq<Line>, rest: seq<byte>)
    requires lines != [] && from <= |b| && b[from..] == Written(lines) + rest
    ensures LineStandsAt(b, from, lines[0])
    ensures b[from + |LineBytes(lines[0])|..] == Written(lines[1..]) + rest
  {
    var l, t := LineBytes(lines[0]), Written(lines[1..]) + rest;
    assert Written(lines) + rest == l + t;
    assert b[from..][..|l|] == l && b[from..][|l|..] == t;
    assert b[from..from + |l|] == l && b[from + |l|..] == t;
  }

  lemma StartsCons(lineAt: LineFinder, from: nat, later: seq<nat>, lines: seq<Line>)
    requires lines != [] && StartAt(lineAt, later, lines[1..])
    requires lineAt(from) == Some((lines[0].text, later[0]))
    ensures StartAt(lineAt, [from] + later, lines)
  {
    var starts := [from] + later;
    forall i | 0 <= i < |lines| ensures lineAt(starts[i]) == Some((lines[i].text, starts[i + 1])) {
      if i > 0 { assert lines[i] == lines[1..][i - 1]; }
    }
  }

  /** A response with at most sixteen header lines, all of which the grammar reads, upgrades with those headers in
      order, and what follows the blank line is left over. */
  lemma ResponseUpgrades(g: LineGrammar, status: seq<byte>, lines: seq<Line>, headers: seq<Header>, blank: Line,
                         x: seq<byte>)
    requires Newline(status) == Some(|status| - 1) && StatusOk(status)
    requires AreHeaderLines(lines) && IsLine(blank) && blank.text == []
    requires HasTerminator(Written(lines) + (LineBytes(blank) + x))
    requires AreReadAs(g, lines, headers) && |lines| <= MAX_HEADERS
    ensures Verdict(g, status + (Written(lines) + (LineBytes(blank) + x))) == Upgraded(headers, x)
  {
    VerdictOfParts(g, status, Written(lines) + (LineBytes(blank) + x));
    ScanReads(g, lines, headers, blank, x);
  }

  lemma ScanReads(g: LineGrammar, lines: seq<Line>, headers: seq<Header>, blank: Line, x: seq<byte>)
    requires AreHeaderLines(lines) && AreReadAs(g, lines, headers) && |lines| <= MAX_HEADERS
    requires IsLine(blank) && blank.text == []
    ensures var b := Written(lines) + (LineBytes(blank) + x);
            var scan := ScanHeaders(g, b, 0, []);
            scan.Scanned? && scan.headers == headers && b[scan.used..] == x
  {
    var b := Written(lines) + (LineBytes(blank) + x);
    assert b[0..] == b && lines[..|lines|] == lines;
    var starts := StartsOf(b, 0, lines, LineBytes(blank) + x);
    ScannerScans(g, b);
    Follow(ScannerOf(g, b), FinderOf(b), g, starts, lines, headers, |lines|);
    BlankIsLast(g, b, starts[|lines|], headers, blank, x);
  }

  lemma BlankIsLast(g: LineGrammar, b: seq<byte>, f: nat, headers: seq<Header>, blank: Line, x: seq<byte>)
    requires f <= |b| && b[f..] == LineBytes(blank) + x && IsLine(blank) && blank.text == []
    ensures var scan := ScanHeaders(g, b, f, headers); scan.Scanned? && scan.headers == headers && b[scan.used..] == x
  {
    var n := |LineBytes(blank)|;
    assert b[f..][..n] == LineBytes(blank) && b[f..][n..] == x;
    assert b[f..f + n] == LineBytes(blank) && b[f + n..] == x;
    LineIsRead(b, f, blank);
  }

  /** One with a line that the grammar refuses among the first seventeen, or with more than sixteen lines before
      that, is refused. */
  lemma ResponseIsRefused(g: LineGrammar, status: seq<byte>, lines: seq<Line>, rest: seq<byte>, i: nat,
                          headers: seq<Header>)
    requires Newline(status) == Some(|status| - 1) && StatusOk(status) && AreHeaderLines(lines)
    requires HasTerminator(Written(lines) + rest) && Stops(g, lines, i, headers)
    ensures Verdict(g, status + (Written(lines) + rest)) == InvalidHeaders
  {
    var b := Written(lines) + rest;
    VerdictOfParts(g, status, b);
    assert b[0..] == b;
    var starts := StartsOf(b, 0, lines, rest);
    ScannerScans(g, b);
    FollowStops(ScannerOf(g, b), FinderOf(b), g, starts, lines, i, headers);
    assert ScannerOf(g, b)(0, []) == ScanHeaders(g, b, 0, []);
  }

  /** One with another status is refused, whatever follows. */
  lemma StatusIsRefused(g: LineGrammar, status: seq<byte>, rest: seq<byte>)
    requires Newline(status) == Some(|status| - 1)
    ensures Verdict(g, status + rest) == InvalidStatus <==> !(STATUS_PREFIX <= status)
  {
    VerdictOfParts(g, status, rest);
  }

  /** The end of the headers is seen when the last header line and the blank line end alike. */
  lemma {:induction false} EndIsSeen(lines: seq<Line>, blank: Line, x: seq<byte>)
    requires lines != [] && blank.text == [] && blank.crlf == lines[|lines| - 1].crlf
    ensures HasTerminator(Written(lines) + (LineBytes(blank) + x))
    decreases |lines|
  {
    var l, tail := lines[0], LineBytes(blank) + x;
    if |lines| == 1 {
      LastLineEnds(l, blank, x);
      assert Written(lines) == LineBytes(l) + [] == LineBytes(l);
    } else {
      EndIsSeen(lines[1..], blank, x);
      TerminatorAfter(LineBytes(l), Written(lines[1..]) + tail);
      assert Written(lines) + tail == LineBytes(l) + (Written(lines[1..]) + tail);
    }
  }

  lemma LastLineEnds(l: Line, blank: Line, x: seq<byte>)
    requires blank.text == [] && blank.crlf == l.crlf
    ensures HasTerminator(LineBytes(l) + (LineBytes(blank) + x))
  {
    var b, n := LineBytes(l) + (LineBytes(blank) + x), |l.text|;
    if l.crlf {
      assert b[n..n + 4] == CRLF_CRLF;
      assert OccursAt(b, CRLF_CRLF, n);
    } else {
      assert b[n..n + 2] == LF_LF;
      assert OccursAt(b, LF_LF, n);
    }
  }

  lemma ContainsAfter(a: seq<byte>, b: seq<byte>, pattern: seq<byte>)
    requires Contains(b, pattern)
    ensures Contains(a + b, pattern)
  {
    var i: nat :| i <= |b| && OccursAt(b, pattern, i);
    assert (a + b)[|a| + i..|a| + i + |pattern|] == b[i..i + |pattern|];
    assert OccursAt(a + b, pattern, |a| + i);
  }

  lemma TerminatorAfter(a: seq<byte>, b: seq<byte>)
    requires HasTerminator(b)
    ensures HasTerminator(a + b)
  {
    if Contains(b, CRLF_CRLF) { ContainsAfter(a, b, CRLF_CRLF); } else { ContainsAfter(a, b, LF_LF); }
  }

  // ----- the state machine -----

  datatype State = Initial | StatusLine | Headers | Complete

  class WebSocketUpgrade {
    const grammar: LineGrammar
    var state: State
    var buf: seq<byte>
    /** Everything fed so far. */
    ghost var fed: seq<byte>

    ghost predicate Valid()
      reads this
    {
      match state
      case Initial => buf == [] && fed == []
      case StatusLine => buf == fed && LF !in fed
      case Headers =>
        && Newline(fed).Some? && StatusOk(fed[..Newline(fed).value + 1])
        && buf == fed[Newline(fed).value + 1..] && !HasTerminator(buf)
      case Complete => true
    }

    constructor (grammar: LineGrammar)
      ensures Valid() && state == Initial && fed == [] && this.grammar == grammar
    {
      this.grammar := grammar;
      state, buf, fed := Initial, [], [];
    }

    /** The `Headers` arm of `write`, after `status`. */
    method WriteHeaders(bytes: seq<byte>, ghost status: seq<byte>) returns (a: Answer)
      requires state == Headers && Newline(status) == Some(|status| - 1) && StatusOk(status) && fed == status + buf
      modifies this
      ensures a == Verdict(grammar, old(fed) + bytes)
      ensures a == NeedMore ==> Valid() && state == Headers && fed == old(fed) + bytes
      ensures a.Upgraded? ==> state == Complete
    {
      buf := buf + bytes;
      fed := fed + bytes;
      assert fed == status + buf;
      VerdictOfParts(grammar, status, buf);
      if HasTerminator(buf) {
        a := ParseResponse(grammar, buf);
        if a.Upgraded? {
          buf := [];
          state := Complete;
        }
      } else {
        a := NeedMore;
      }
    }

    /** The `Initial` arm of `write`. A success of the one-packet fast path leaves the state as it was. */
    method WriteInitial(bytes: seq<byte>) returns (a: Answer)
      requires Valid() && state == Initial
      modifies this
      ensures a == Verdict(grammar, bytes)
      ensures a == NeedMore ==> Valid() && state != Complete && fed == bytes
      ensures a.Upgraded? ==>
              state == if EndsWith(bytes[Newline(bytes).value + 1..], CRLF_CRLF) then Initial else Complete
    {
      var newline := FindNewline(bytes);
      if newline.None? {
        state := StatusLine;
        buf := buf + bytes;
        fed := bytes;
        return NeedMore;
      }
      var status, rest := bytes[..newline.value + 1], bytes[newline.value + 1..];
      PacketVerdict(grammar, bytes, newline.value);
      if !StatusOk(status) { return InvalidStatus; }
      if EndsWith(rest, CRLF_CRLF) { return ParseResponse(grammar, rest); }
      state, fed := Headers, status;
      a := WriteHeaders(rest, status);
    }

    /** The `StatusLine` arm of `write`. */
    method WriteStatusLine(bytes: seq<byte>) returns (a: Answer)
      requires Valid() && state == StatusLine
      modifies this
      ensures a == Verdict(grammar, old(fed) + bytes)
      ensures a == NeedMore ==> Valid() && state != Complete && fed == old(fed) + bytes
      ensures a.Upgraded? ==> state == Complete
    {
      var newline := FindNewline(bytes);
      StatusLineVerdict(grammar, fed, bytes);
      if newline.None? {
        buf := buf + bytes;
        fed := fed + bytes;
        return NeedMore;
      }
      buf := buf + bytes[..newline.value + 1];
      if !StatusOk(buf) { return InvalidStatus; }
      fed := buf;
      buf := [];
      state := Headers;
      a := WriteHeaders(bytes[newline.value + 1..], fed);
    }

    /** `write`: the answer is the verdict on everything fed so far, whichever path gave it. */
    method Write(bytes: seq<byte>) returns (a: Answer)
      requires Valid()
      modifies this
      ensures old(state) == Complete ==> a == AlreadyComplete && state == Complete
      ensures old(state) != Complete ==> a == Verdict(grammar, old(fed) + bytes)
      ensures a == NeedMore ==> Valid() && state != Complete && fed == old(fed) + bytes
      ensures a.Upgraded? && old(state) != Initial ==> state == Complete
    {
      match state {
        case Initial =>
          assert fed + bytes == bytes;
          a := WriteInitial(bytes);
        case StatusLine =>
          a := WriteStatusLine(bytes);
        case Headers =>
          ghost var i := Newline(fed).value;
          assert fed == fed[..i + 1] + buf;
          StatusLineEnds(fed, i);
          a := WriteHeaders(bytes, fed[..i + 1]);
        case Complete =>
          a := AlreadyComplete;
      }
    }
  }

  lemma FastPathHasTerminator(rest: seq<byte>)
    requires EndsWith(rest, CRLF_CRLF)
    ensures HasTerminator(rest)
  {
    assert OccursAt(rest, CRLF_CRLF, |rest| - 4);
  }

  /** The verdict on a first packet that holds the whole status line, and that of the one-packet fast path. */
  lemma PacketVerdict(g: LineGrammar, bytes: seq<byte>, i: nat)
    requires Newline(bytes) == Some(i)
    ensures var status, rest := bytes[..i + 1], bytes[i + 1..];
            && Newline(status) == Some(|status| - 1) && bytes == status + rest
            && (!StatusOk(status) ==> Verdict(g, bytes) == InvalidStatus)
            && (StatusOk(status) && EndsWith(rest, CRLF_CRLF) ==> Verdict(g, bytes) == ParseResponse(g, rest))
  {
    var status, rest := bytes[..i + 1], bytes[i + 1..];
    StatusLineEnds(bytes, i);
    assert status + rest == bytes;
    VerdictOfParts(g, status, rest);
    if EndsWith(rest, CRLF_CRLF) { FastPathHasTerminator(rest); }
  }

  /** The first newline of later bytes ends the status line. */
  lemma StatusLineCompletes(fed: seq<byte>, bytes: seq<byte>, i: nat)
    requires LF !in fed && Newline(bytes) == Some(i)
    ensures var status := fed + bytes[..i + 1];
            Newline(status) == Some(|status| - 1) && fed + bytes == status + bytes[i + 1..]
  {
    StatusLineEnds(bytes, i);
    NewlineAfter(fed, bytes[..i + 1]);
    CutInTwo(fed, bytes, i + 1);
  }

  /** The verdict on bytes that follow an unfinished status line. */
  lemma StatusLineVerdict(g: LineGrammar, fed: seq<byte>, bytes: seq<byte>)
    requires LF !in fed
    ensures match Newline(bytes)
            case None => LF !in fed + bytes && Verdict(g, fed + bytes) == NeedMore
            case Some(i) =>
              var status, rest := fed + bytes[..i + 1], bytes[i + 1..];
              && Newline(status) == Some(|status| - 1) && fed + bytes == status + rest
              && Verdict(g, fed + bytes) == if StatusOk(status) then HeadersVerdict(g, rest) else InvalidStatus
  {
    match Newline(bytes)
    case None => NewlineAfter(fed, bytes);
    case Some(i) =>
      StatusLineCompletes(fed, bytes, i);
      VerdictOfParts(g, fed + bytes[..i + 1], bytes[i + 1..]);
  }

  lemma CutInTwo(fed: seq<byte>, bytes: seq<byte>, n: nat)
    requires n <= |bytes|
    ensures fed + bytes == fed + bytes[..n] + bytes[n..]
  {
  }

  lemma StatusLineEnds(b: seq<byte>, i: nat)
    requires Newline(b) == Some(i)
    ensures Newline(b[..i + 1]) == Some(i)
  {
    assert b[..i + 1][..i] == b[..i];
    NewlineUnique(b[..i + 1], i);
  }

  /** Feeds chunks to a fresh parser until it answers. */
  method FeedAll(g: LineGrammar, chunks: seq<seq<byte>>) returns (a: Answer, n: nat)
    ensures n <= |chunks| && Join(a, Flatten(chunks[n..])) == Verdict(g, Flatten(chunks))
    ensures a == NeedMore ==> n == |chunks|
  {
    var parser := new WebSocketUpgrade(g);
    n := 0;
    while n < |chunks|
      invariant n <= |chunks| && parser.Valid() && parser.grammar == g && parser.state != Complete && fresh(parser)
      invariant Verdict(g, parser.fed) == NeedMore
      invariant parser.fed + Flatten(chunks[n..]) == Flatten(chunks)
    {
      ghost var fed := parser.fed + chunks[n];
      ghost var later := Flatten(chunks[n + 1..]);
      assert chunks[n..][1..] == chunks[n + 1..];
      assert fed + later == parser.fed + (chunks[n] + later) == Flatten(chunks);
      a := parser.Write(chunks[n]);
      n := n + 1;
      if a != NeedMore {
        VerdictExtends(g, fed, later);
        return;
      }
    }
    assert chunks[n..] == [] && parser.fed + [] == parser.fed;
    a := NeedMore;
  }
}
