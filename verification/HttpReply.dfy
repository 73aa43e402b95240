/** Rendering of well-formed replies, and the round trip through the reader. */
module HttpReply {
  import opened Search
  import opened HttpFraming
  import opened HttpFramingTheorems
  import opened HttpNumber

  /** A reply as section 4 of RFC 9112 lays it out, and as liberally as the reader takes it: white
      space around the parts of the status line, the length field under any capitalization between
      other lines, its number between blanks. Further length fields may follow it. */
  datatype Reply = Reply(
    lead: seq<Byte>, version: seq<Byte>, gap: seq<Byte>, status: nat, tail: seq<Byte>,
    before: seq<seq<Byte>>, lengthName: seq<Byte>, left: seq<Byte>, right: seq<Byte>, after: seq<seq<Byte>>,
    body: seq<Byte>)

  predicate Clean(s: seq<Byte>) { forall i :: 0 <= i < |s| ==> s[i] != CR && s[i] != LF }

  /** Tab, vertical tab, form feed, the four ASCII separators, space. */
  const SEPARATORS: set<int> := {9, 11, 12, 28, 29, 30, 31, 32}

  predicate AllSeparators(s: seq<Byte>) { forall i :: 0 <= i < |s| ==> s[i] in SEPARATORS }

  predicate IsToken(s: seq<Byte>) { s != [] && Clean(s) && forall i :: 0 <= i < |s| ==> s[i] !in SEPARATORS }

  /** "content-length", each letter in either case. */
  predicate SpelledLength(name: seq<Byte>) {
    |name| == 14 &&
    forall i :: 0 <= i < 14 ==>
      name[i] == CONTENT_LENGTH[i] || (97 <= CONTENT_LENGTH[i] <= 122 && name[i] == CONTENT_LENGTH[i] - 32)
  }

  predicate DeclaresLength(line: seq<Byte>) { |line| > 14 && line[14] == COLON && SpelledLength(line[..14]) }

  predicate StatusOk(r: Reply, code: seq<Byte>) {
    && AllSeparators(r.lead) && IsToken(r.version) && r.gap != [] && AllSeparators(r.gap) && IsToken(code)
    && Clean(r.tail) && (r.tail != [] ==> r.tail[0] in SEPARATORS)
  }

  predicate LineOk(line: seq<Byte>) { line != [] && Clean(line) }

  /** Everything but the status and the number is as it should be. */
  predicate LinesOk(r: Reply) {
    && SpelledLength(r.lengthName)
    && (forall i :: 0 <= i < |r.before| ==> LineOk(r.before[i]) && !DeclaresLength(r.before[i]))
    && (forall i :: 0 <= i < |r.after| ==> LineOk(r.after[i]))
  }

  predicate ReplyOk(r: Reply) {
    StatusOk(r, Decimal(r.status)) && LinesOk(r) && AllBlank(r.left) && AllBlank(r.right)
  }

  predicate AllBlank(s: seq<Byte>) { Clean(s) && Blanks(s) }

  function StatusLine(r: Reply, code: seq<Byte>): seq<Byte> { r.lead + (r.version + (r.gap + (code + r.tail))) }

  function LengthLine(name: seq<Byte>, length: seq<Byte>): seq<Byte> { name + ([COLON] + length) }

  /** The lines of the header block, with `code` as the text of the status and `length` as the text
      of the length field. */
  function HeadLines(r: Reply, code: seq<Byte>, length: seq<Byte>): seq<seq<Byte>> {
    [StatusLine(r, code)] + (r.before + ([LengthLine(r.lengthName, length)] + r.after))
  }

  /** Every line with its terminator, then the blank line. */
  function Block(lines: seq<seq<Byte>>): seq<Byte> {
    if lines == [] then CRLF else lines[0] + (CRLF + Block(lines[1..]))
  }

  /** A header block whose length field says anything at all. */
  function RenderHeadSaying(r: Reply, length: seq<Byte>): seq<Byte> {
    Block(HeadLines(r, Decimal(r.status), length))
  }

  /** The length field says how long the body is. */
  function RenderHead(r: Reply): seq<Byte> { RenderHeadSaying(r, r.left + Decimal(|r.body|) + r.right) }

  function Render(r: Reply): seq<Byte> { RenderHead(r) + r.body }

  // ---------------------------------------------------------------- splitting into lines

  lemma CrlfAfterClean(line: seq<Byte>, rest: seq<Byte>)
    requires Clean(line)
    ensures Find(line + (CRLF + rest), CRLF, 0) == Some(|line|)
  {
    var s := line + (CRLF + rest);
    forall j: nat | j < |line| ensures !OccursAt(s, CRLF, j) {
      OccurrenceElement(s, CRLF, j, 0);
    }
    FindUnique(s, CRLF, 0, |line|);
  }

  lemma {:induction false} LinesOfBlock(lines: seq<seq<Byte>>)
    requires forall i :: 0 <= i < |lines| ==> Clean(lines[i])
    ensures Lines(Block(lines)) == lines + [[], []]
  {
    hide Find;
    var s := Block(lines);
    if lines == [] {
      CrlfAfterClean([], []);
      assert s == [] + (CRLF + []);
      assert s[2..] == [];
      assert Lines([]) == [[]];
      assert Lines(s) == [[]] + [[]];
    } else {
      CrlfAfterClean(lines[0], Block(lines[1..]));
      assert s[..|lines[0]|] == lines[0];
      assert s[|lines[0]| + 2..] == Block(lines[1..]);
      LinesOfBlock(lines[1..]);
      assert lines == [lines[0]] + lines[1..];
    }
  }

  /** Inside a line and its terminator a blank line can only start at the terminator. */
  lemma NoBlankLineBefore(line: seq<Byte>, tail: seq<Byte>)
    requires Clean(line)
    ensures forall j: nat :: j < |line + CRLF| && j != |line| ==> !OccursAt((line + CRLF) + tail, HEADER_END, j)
    ensures tail != [] && tail[0] != CR ==> !OccursAt((line + CRLF) + tail, HEADER_END, |line|)
    ensures CRLF <= tail ==> OccursAt((line + CRLF) + tail, HEADER_END, |line|)
  {
    var s := (line + CRLF) + tail;
    forall j: nat | j < |line + CRLF| && j != |line| ensures !OccursAt(s, HEADER_END, j) {
      OccurrenceElement(s, HEADER_END, j, 0);
    }
    OccurrenceElement(s, HEADER_END, |line|, 2);
    if CRLF <= tail { assert s[|line|..|line| + 4] == CRLF + CRLF; }
  }

  /** The first blank line is the one that ends the block. */
  lemma {:induction false} BlankLineEndsBlock(lines: seq<seq<Byte>>, rest: seq<Byte>)
    requires lines != []
    requires forall i :: 0 <= i < |lines| ==> Clean(lines[i]) && lines[i] != []
    ensures |Block(lines)| >= 4
    ensures Find(Block(lines) + rest, HEADER_END, 0) == Some(|Block(lines)| - 4)
  {
    hide Find, OccursAt;
    var line := lines[0];
    var tail := Block(lines[1..]) + rest;
    assert Block(lines) + rest == (line + CRLF) + tail;
    NoBlankLineBefore(line, tail);
    if |lines| == 1 {
      FindUnique((line + CRLF) + tail, HEADER_END, 0, |line|);
    } else {
      assert tail[0] == lines[1][0];
      BlankLineEndsBlock(lines[1..], rest);
      FindPast(line + CRLF, tail, HEADER_END);
    }
  }

  // ---------------------------------------------------------------- parsing the lines back

  lemma {:induction false} RunOf(s: seq<Byte>, n: nat, white: bool)
    requires n <= |s|
    requires forall i :: 0 <= i < n ==> IsFieldSpace(s[i]) == white
    requires n < |s| ==> IsFieldSpace(s[n]) != white
    ensures Run(s, white) == n
  {
    if n == 0 {
    } else {
      RunOf(s[1..], n - 1, white);
    }
  }

  /** A run of separators or a token in front of the other kind is exactly what `Run` skips. */
  lemma RunOver(part: seq<Byte>, rest: seq<Byte>, white: bool)
    requires forall i :: 0 <= i < |part| ==> IsFieldSpace(part[i]) == white
    requires rest != [] ==> IsFieldSpace(rest[0]) != white
    ensures Run(part + rest, white) == |part| && (part + rest)[|part|..] == rest && (part + rest)[..|part|] == part
  {
    RunOf(part + rest, |part|, white);
  }

  lemma TokenIsNotSpace(s: seq<Byte>)
    ensures IsToken(s) ==> forall i :: 0 <= i < |s| ==> !IsFieldSpace(s[i])
    ensures AllSeparators(s) ==> forall i :: 0 <= i < |s| ==> IsFieldSpace(s[i])
  {
    if AllSeparators(s) {
      forall i | 0 <= i < |s| ensures IsFieldSpace(s[i]) { assert s[i] in SEPARATORS; }
    }
    if IsToken(s) {
      forall i | 0 <= i < |s| ensures !IsFieldSpace(s[i]) { assert s[i] !in SEPARATORS; }
    }
  }

  lemma StatusField(r: Reply, code: seq<Byte>)
    requires StatusOk(r, code)
    ensures SecondField(StatusLine(r, code)) == code
  {
    TokenIsNotSpace(r.lead);
    TokenIsNotSpace(r.version);
    TokenIsNotSpace(r.gap);
    TokenIsNotSpace(code);
    assert r.tail != [] ==> IsFieldSpace(r.tail[0]);
    hide AllSeparators, IsToken, IsFieldSpace, Clean, Run;
    var c := code + r.tail;
    var b := r.gap + c;
    var a := r.version + b;
    assert a[0] == r.version[0] && b[0] == r.gap[0] && c[0] == code[0];
    RunOver(r.lead, a, true);
    RunOver(r.version, b, false);
    RunOver(r.gap, c, true);
    RunOver(code, r.tail, false);
  }

  /** The reader's comparison of names, without regard to case. */
  lemma NamedIff(name: seq<Byte>)
    ensures IsNamed(name, CONTENT_LENGTH) <==> SpelledLength(name)
  {
    if |name| == 14 {
      forall i | 0 <= i < 14
        ensures Lower(name[i]) == CONTENT_LENGTH[i] <==>
                name[i] == CONTENT_LENGTH[i] || (97 <= CONTENT_LENGTH[i] <= 122 && name[i] == CONTENT_LENGTH[i] - 32)
      {
      }
    }
  }

  lemma SpelledHasNoColon(name: seq<Byte>)
    requires SpelledLength(name)
    ensures COLON !in name && Clean(name)
  {
    forall i | 0 <= i < 14 ensures name[i] != COLON && name[i] != CR && name[i] != LF {}
  }

  lemma ColonAt(line: seq<Byte>, k: nat)
    requires k < |line| && line[k] == COLON && COLON !in line[..k]
    ensures Find(line, [COLON], 0) == Some(k)
  {
    forall j: nat | j < k ensures !OccursAt(line, [COLON], j) {
      OccurrenceElement(line, [COLON], j, 0);
      assert line[..k][j] == line[j];
    }
    assert line[k..k + 1] == [COLON];
    FindUnique(line, [COLON], 0, k);
  }

  /** A line declares the length exactly if it begins with the name and a colon; then the rest of the
      line is the value. */
  lemma LengthFieldIff(line: seq<Byte>)
    ensures LengthField(line) == if DeclaresLength(line) then Some(line[15..]) else None
  {
    hide Find;
    if DeclaresLength(line) {
      SpelledHasNoColon(line[..14]);
      ColonAt(line, 14);
      NamedIff(line[..14]);
    } else {
      match Find(line, [COLON], 0)
      case None =>
      case Some(k) =>
        NamedIff(line[..k]);
        assert line[k..k + 1][0] == COLON;
    }
  }

  lemma LengthLineDeclares(name: seq<Byte>, length: seq<Byte>)
    requires SpelledLength(name)
    ensures DeclaresLength(LengthLine(name, length)) && LengthLine(name, length)[15..] == length
  {
    assert LengthLine(name, length)[..14] == name;
  }

  lemma {:induction false} LengthAfterOthers(
    before: seq<seq<Byte>>, name: seq<Byte>, length: seq<Byte>, more: seq<seq<Byte>>)
    requires SpelledLength(name) && forall i :: 0 <= i < |before| ==> !DeclaresLength(before[i])
    ensures DeclaredLength(before + ([LengthLine(name, length)] + more)) == ParseInt(length)
  {
    hide ParseInt, LengthField, DeclaresLength, SpelledLength, LengthLine;
    var lines := before + ([LengthLine(name, length)] + more);
    LengthFieldIff(lines[0]);
    if before == [] {
      LengthLineDeclares(name, length);
    } else {
      assert lines[1..] == before[1..] + ([LengthLine(name, length)] + more);
      LengthAfterOthers(before[1..], name, length, more);
    }
  }

  lemma HeadLinesClean(r: Reply, code: seq<Byte>, length: seq<Byte>)
    requires StatusOk(r, code) && LinesOk(r) && Clean(length)
    ensures forall i :: 0 <= i < |HeadLines(r, code, length)| ==> LineOk(HeadLines(r, code, length)[i])
  {
    var lines, n := HeadLines(r, code, length), |r.before|;
    StatusLineOk(r, code);
    SpelledHasNoColon(r.lengthName);
    assert LineOk(LengthLine(r.lengthName, length));
    hide LineOk, StatusLine, LengthLine;
    forall i | 0 <= i < |lines| ensures LineOk(lines[i]) {
      if 0 < i <= n {
        assert lines[i] == r.before[i - 1];
      } else if i > n + 1 {
        assert lines[i] == r.after[i - n - 2];
      }
    }
  }

  lemma StatusLineOk(r: Reply, code: seq<Byte>)
    requires StatusOk(r, code)
    ensures LineOk(StatusLine(r, code))
  {
    SeparatorsClean(r.lead);
    SeparatorsClean(r.gap);
    hide AllSeparators, IsToken;
    assert Clean(r.version) && Clean(code) by { TokensClean(r.version); TokensClean(code); }
    CleanConcat(code, r.tail);
    CleanConcat(r.gap, code + r.tail);
    CleanConcat(r.version, r.gap + (code + r.tail));
    CleanConcat(r.lead, r.version + (r.gap + (code + r.tail)));
  }

  lemma SeparatorsClean(s: seq<Byte>)
    requires AllSeparators(s)
    ensures Clean(s)
  {
    forall i | 0 <= i < |s| ensures s[i] != CR && s[i] != LF { assert s[i] in SEPARATORS; }
  }

  lemma TokensClean(s: seq<Byte>)
    ensures IsToken(s) ==> Clean(s)
  {
  }

  lemma CleanConcat(a: seq<Byte>, b: seq<Byte>)
    requires Clean(a) && Clean(b)
    ensures Clean(a + b)
  {
  }

  lemma DecimalIsToken(n: nat)
    ensures IsToken(Decimal(n)) && IsNumber(Decimal(n))
  {
    hide Decimal;
    var d := Decimal(n);
    forall i | 0 <= i < |d| ensures d[i] !in SEPARATORS && d[i] != CR && d[i] != LF { assert 48 <= d[i] <= 57; }
  }

  /** Whatever stands for the status and for the length: a status that is not all digits is refused
      first; then the block parses to its status and the number, or to the ValueError of `int`. */
  lemma ParseBlock(r: Reply, code: seq<Byte>, length: seq<Byte>)
    requires StatusOk(r, code) && LinesOk(r) && Clean(length)
    ensures ParseHead(Block(HeadLines(r, code, length))) ==
            if !IsNumber(code) then BadHead(MalformedStatus)
            else match ParseInt(length) case None => BadHead(BadContentLength) case Some(n) => Head(DigitValue(code), n)
  {
    HeadLinesClean(r, code, length);
    CodeIsNumber(r, code);
    hide ParseHead, Lines, Block, DeclaredLength, SecondField, ParseInt, Clean, LineOk, StatusOk, LinesOk,
         StatusLine, DigitValue, AllDigits, HeadLines, IsNumber;
    var lines := HeadLines(r, code, length);
    LinesAreClean(lines);
    LinesOfBlock(lines);
    StatusField(r, code);
    DeclaredOf(r, code, length);
    ParseFrom(Block(lines), lines + [[], []]);
  }

  lemma DeclaredOf(r: Reply, code: seq<Byte>, length: seq<Byte>)
    requires LinesOk(r)
    ensures var lines := HeadLines(r, code, length) + [[], []];
            lines[0] == StatusLine(r, code) && DeclaredLength(lines[1..]) == ParseInt(length)
  {
    hide DeclaredLength, ParseInt, DeclaresLength, LineOk, StatusLine, SpelledLength;
    assert (HeadLines(r, code, length) + [[], []])[1..] ==
           r.before + ([LengthLine(r.lengthName, length)] + (r.after + [[], []]));
    LengthAfterOthers(r.before, r.lengthName, length, r.after + [[], []]);
  }

  predicate IsNumber(s: seq<Byte>) { forall i :: 0 <= i < |s| ==> 48 <= s[i] <= 57 }

  lemma ParseFrom(head: seq<Byte>, lines: seq<seq<Byte>>)
    requires lines != [] && Lines(head) == lines
    ensures var field := SecondField(lines[0]);
            ParseHead(head) ==
            if field == [] || !AllDigits(field) then BadHead(MalformedStatus)
            else match DeclaredLength(lines[1..])
                 case None => BadHead(BadContentLength)
                 case Some(n) => Head(DigitValue(field), n)
  {
    hide Lines, SecondField, DeclaredLength, DigitValue;
  }

  lemma CodeIsNumber(r: Reply, code: seq<Byte>)
    requires StatusOk(r, code)
    ensures code != [] && (AllDigits(code) <==> IsNumber(code))
  {
    if AllDigits(code) {
      forall i | 0 <= i < |code| ensures 48 <= code[i] <= 57 { assert IsDigit(code[i]); }
    }
  }

  /** A status line with fewer than two fields is refused, whatever follows it. */
  lemma TooFewFields(lead: seq<Byte>, version: seq<Byte>, gap: seq<Byte>, lines: seq<seq<Byte>>)
    requires AllSeparators(lead) && (version == [] || IsToken(version)) && AllSeparators(gap)
    requires lines != [] && lines[0] == lead + (version + gap)
    requires forall i :: 0 <= i < |lines| ==> Clean(lines[i])
    ensures ParseHead(Block(lines)) == BadHead(MalformedStatus)
  {
    OneField(lead, version, gap);
    hide *;
    LinesOfBlock(lines);
    ParseFrom(Block(lines), lines + [[], []]);
  }

  lemma OneField(lead: seq<Byte>, version: seq<Byte>, gap: seq<Byte>)
    requires AllSeparators(lead) && (version == [] || IsToken(version)) && AllSeparators(gap)
    ensures SecondField(lead + (version + gap)) == []
  {
    TokenIsNotSpace(lead);
    TokenIsNotSpace(version);
    TokenIsNotSpace(gap);
    hide AllSeparators, IsToken, IsFieldSpace, Run;
    if version == [] {
      assert lead + (version + gap) == (lead + gap) + [];
      RunOver(lead + gap, [], true);
    } else {
      assert (version + gap)[0] == version[0];
      RunOver(lead, version + gap, true);
      RunOver(version, gap, false);
      assert gap + [] == gap;
      RunOver(gap, [], true);
    }
  }

  lemma LinesAreClean(lines: seq<seq<Byte>>)
    requires forall i :: 0 <= i < |lines| ==> LineOk(lines[i])
    ensures forall i :: 0 <= i < |lines| ==> Clean(lines[i]) && lines[i] != []
  {
  }

  lemma ParseRenderedHead(r: Reply, length: seq<Byte>)
    requires ReplyOk(r) && Clean(length)
    ensures ParseHead(RenderHeadSaying(r, length)) ==
            match ParseInt(length) case None => BadHead(BadContentLength) case Some(n) => Head(r.status, n)
  {
    hide ParseHead, Block, HeadLines, Decimal, ParseInt, Clean, StatusOk, LinesOk, IsNumber;
    DecimalIsToken(r.status);
    DecimalValue(r.status);
    ParseBlock(r, Decimal(r.status), length);
  }

  lemma NumberClean(left: seq<Byte>, n: nat, right: seq<Byte>)
    requires Clean(left) && Clean(right)
    ensures Clean(left + Decimal(n) + right)
  {
    hide Decimal;
  }

  lemma NegativeClean(n: nat)
    ensures Clean([SP, MINUS] + Decimal(n))
  {
    hide Decimal;
  }

  /** A header block at the front of a stream ends at its own blank line. */
  lemma HeadAtFront(r: Reply, length: seq<Byte>, rest: seq<Byte>)
    requires ReplyOk(r) && Clean(length)
    ensures var h := RenderHeadSaying(r, length);
            |h| >= 4 && Find(h + rest, HEADER_END, 0) == Some(|h| - 4) && (h + rest)[..|h|] == h
  {
    hide Find, Block, Clean, LineOk, StatusOk, Decimal;
    var lines := HeadLines(r, Decimal(r.status), length);
    HeadLinesClean(r, Decimal(r.status), length);
    LinesAreClean(lines);
    BlankLineEndsBlock(lines, rest);
  }

  /** The first 512 bytes of the body, for an error status. */
  function ErrorText(r: Reply): Option<seq<Byte>> {
    if r.status < 400 then None else if |r.body| <= 512 then Some(r.body) else Some(r.body[..512])
  }

  /** Every well-formed reply with a safe header block is one frame and reads back as itself. */
  lemma RenderedReplyIsFrame(r: Reply)
    requires ReplyOk(r) && |RenderHead(r)| <= SAFE_HEADER
    ensures IsFrame(Render(r))
    ensures FrameOf(Render(r)) == Response(r.status, |Render(r)|, ErrorText(r))
  {
    var length := r.left + Decimal(|r.body|) + r.right;
    NumberClean(r.left, |r.body|, r.right);
    ParseDecimal(r.left, |r.body|, r.right);
    hide Find, ParseHead, ParseInt, RenderHeadSaying, ReplyOk, Clean, Decimal, IsFrame, FrameOf, Summary, ErrorText;
    HeadAtFront(r, length, r.body);
    ParseRenderedHead(r, length);
    FrameOfBlock(RenderHead(r), r.status, r.body);
    SummaryMeans(r);
  }

  lemma FrameOfBlock(h: seq<Byte>, status: nat, body: seq<Byte>)
    requires |h| >= 4 && Find(h + body, HEADER_END, 0) == Some(|h| - 4) && |h| <= SAFE_HEADER
    requires ParseHead(h) == Head(status, |body|)
    ensures IsFrame(h + body) && FrameOf(h + body) == Response(status, |h + body|, Summary(status, body))
  {
    hide Find, ParseHead, Summary;
    var s := h + body;
    assert s[..|h|] == h && s[|h|..|h| + |body|] == body;
  }

  lemma SummaryMeans(r: Reply)
    ensures Summary(r.status, r.body) == ErrorText(r)
  {
    assert r.body[..|r.body|] == r.body;
  }

  function RenderAll(rs: seq<Reply>): (fs: seq<seq<Byte>>)
    ensures |fs| == |rs| && forall i :: 0 <= i < |rs| ==> fs[i] == Render(rs[i])
  { seq(|rs|, i requires 0 <= i < |rs| => Render(rs[i])) }

  /** End to end: whatever replies the peer writes and however the network cuts them, reading
      as many responses returns each reply's status and error text in order and leaves
      exactly the bytes after the last reply. */
  lemma RepliesRoundTrip(ch: Channel, rs: seq<Reply>, rest: seq<Byte>)
    requires FaultFree(ch.plan) && Unread(ch) == Flatten(RenderAll(rs)) + rest
    requires forall i :: 0 <= i < |rs| ==> ReplyOk(rs[i]) && |RenderHead(rs[i])| <= SAFE_HEADER
    ensures var (got, c) := ReadMany(ch, |rs|);
            && |got| == |rs| && Unread(c) == rest && FaultFree(c.plan)
            && forall i :: 0 <= i < |rs| ==>
                 got[i] == Response(rs[i].status, |Render(rs[i])|, ErrorText(rs[i]))
  {
    hide ReplyOk, Render, IsFrame, FrameOf, ReadMany, Flatten, ErrorText;
    forall i | 0 <= i < |rs|
      ensures IsFrame(Render(rs[i]))
      ensures FrameOf(Render(rs[i])) == Response(rs[i].status, |Render(rs[i])|, ErrorText(rs[i]))
    {
      RenderedReplyIsFrame(rs[i]);
    }
    FramesSurviveChunking(ch, RenderAll(rs), rest);
  }

  /** A negative length is accepted: however long the stream behind it, some chunking makes the
      next read start inside the header block. */
  lemma NegativeLengthAccepted(r: Reply, n: int, rest: seq<Byte>)
    requires n > 0 && ReplyOk(r) && |RenderHeadSaying(r, [SP, MINUS] + Decimal(n))| <= SAFE_HEADER
    ensures var h := RenderHeadSaying(r, [SP, MINUS] + Decimal(n));
            && NegativeLength(h + rest) && ParseHead(h) == Head(r.status, -n)
            && exists plan :: FaultFree(plan) && !FramedAt(h + rest, plan, |h|)
  {
    hide Find, ParseHead, ParseInt, Block, ReplyOk, Clean, Decimal, FramedAt, RenderHeadSaying;
    var length := [SP, MINUS] + Decimal(n);
    NegativeClean(n);
    HeadAtFront(r, length, rest);
    ParseRenderedHead(r, length);
    ParseNegative(n);
    var h := RenderHeadSaying(r, length);
    OnesAreFaultFree(|h|);
    NegativeLengthMisframes(h + rest, |h| - 4, Head(r.status, -n));
  }

  /** A length that is no number makes the very next read raise, under every chunking. */
  lemma BadLengthRaises(ch: Channel, r: Reply, length: seq<Byte>, rest: seq<Byte>)
    requires FaultFree(ch.plan) && ReplyOk(r) && Clean(length) && ParseInt(length).None?
    requires Unread(ch) == RenderHeadSaying(r, length) + rest && |RenderHeadSaying(r, length)| <= SAFE_HEADER
    ensures ReadStep(ch).0 == Failed(BadContentLength)
  {
    hide Find, ParseHead, ParseInt, Block, ReplyOk, Clean, Decimal, ReadStep, RenderHeadSaying;
    HeadAtFront(r, length, rest);
    ParseRenderedHead(r, length);
    ReadMatchesReference(ch);
  }

  // ---------------------------------------------------------------- examples

  /** The simplest reply: one letter for the version, status 2, a length, and perhaps another line. */
  function Simple(after: seq<seq<Byte>>, body: seq<Byte>): Reply {
    Reply([], [72], [SP], 2, [], [], CONTENT_LENGTH, [SP], [], after, body)
  }

  lemma SimpleOk(after: seq<seq<Byte>>, body: seq<Byte>)
    requires forall i :: 0 <= i < |after| ==> LineOk(after[i])
    ensures ReplyOk(Simple(after, body))
  {
    DecimalIsToken(2);
  }

  /** The shortest reply there is: both kinds of bad length fit into a safe header block. */
  lemma MinimalHead(length: seq<Byte>)
    ensures ReplyOk(Simple([], [])) && |RenderHeadSaying(Simple([], []), length)| == 24 + |length|
    ensures Clean([120]) && ParseInt([120]).None?
  {
    var r := Simple([], []);
    SimpleOk([], []);
    assert Decimal(2) == [50];
    var a, b := StatusLine(r, [50]), LengthLine(r.lengthName, length);
    assert |a| == 3 && |b| == 15 + |length|;
    assert HeadLines(r, [50], length) == [a, b];
    hide StatusLine, LengthLine;
    assert [a, b][1..] == [b];
    assert Block([b]) == b + (CRLF + CRLF);
  }

  function Fill(n: nat): (s: seq<Byte>)
    ensures |s| == n && Clean(s)
  { seq(n, _ => 97) }

  /** A reply with another line of `n` bytes after the length. */
  function Padded(n: nat, body: seq<Byte>): Reply { Simple([Fill(n)], body) }

  lemma PaddedHead(n: nat, body: seq<Byte>)
    requires n > 0
    ensures ReplyOk(Padded(n, body)) && |RenderHead(Padded(n, body))| == 27 + n + |Decimal(|body|)|
  {
    hide Fill;
    var r, length := Padded(n, body), [SP] + Decimal(|body|) + [];
    SimpleOk([Fill(n)], body);
    assert Decimal(2) == [50];
    hide Decimal;
    var a, b, c := StatusLine(r, [50]), LengthLine(r.lengthName, length), Fill(n);
    assert |a| == 3 && |b| == 15 + |length|;
    assert HeadLines(r, [50], length) == [a, b, c];
    hide StatusLine, LengthLine;
    assert [a, b, c][1..] == [b, c] && [b, c][1..] == [c];
    assert Block([c]) == c + (CRLF + CRLF);
    assert Block([b, c]) == b + (CRLF + Block([c]));
  }

  /** A header block of 13,031 bytes, well within the 16,384 that the check allows: with 5,000 bytes of
      body behind it some chunking trips the check all the same. */
  lemma LongReplyTrips()
    ensures var r := Padded(13000, Fill(5000));
            && ReplyOk(r) && |RenderHead(r)| == 13031
            && exists plan :: FaultFree(plan) && ReadStep(Channel([], Render(r), plan)).0 == Failed(HeadersTooLong)
  {
    hide ReadStep, Find, Clean, Fill, RenderHeadSaying, ReplyOk;
    var r := Padded(13000, Fill(5000));
    PaddedHead(13000, Fill(5000));
    assert |Decimal(5000)| == 4 by { DecimalDigits(); }
    assert Clean([SP]) && Clean([]) by { SpaceClean(); }
    NumberClean([SP], 5000, []);
    HeadAtFront(r, [SP] + Decimal(5000) + [], r.body);
    HeaderBoundIsExact(Render(r));
  }

  lemma SpaceClean()
    ensures Clean([SP]) && Clean([])
  {
  }

  lemma DecimalDigits()
    ensures |Decimal(5000)| == 4
  {
    assert Decimal(5) == [53];
    assert Decimal(50) == [53, 48];
    assert Decimal(500) == [53, 48, 48];
  }
}
