/** The backward scan for the last line of a file (src/common/util.cpp). */
module LastLines {
  import opened Bytes
  import opened LogEntries
  import Streams

  predicate IsBreak(b: Byte) {
    b == LF || b == CR
  }

  /** s without its trailing line breaks. */
  function DropTrailingBreaks(s: seq<Byte>): (d: seq<Byte>)
    ensures |d| <= |s|
  {
    if s == [] || !IsBreak(s[|s| - 1]) then s else DropTrailingBreaks(s[..|s| - 1])
  }

  /** What follows the last newline of s. */
  function LastSegment(s: seq<Byte>): seq<Byte> {
    if s == [] || s[|s| - 1] == LF then [] else LastSegment(s[..|s| - 1]) + [s[|s| - 1]]
  }

  function WithoutCR(s: seq<Byte>): seq<Byte> {
    if s == [] then []
    else WithoutCR(s[..|s| - 1]) + if s[|s| - 1] == CR then [] else [s[|s| - 1]]
  }

  /** The forward meaning of the scan; an absent file has no last line. */
  function LastLine(file: Option<seq<Byte>>): seq<Byte> {
    match file
    case None => []
    case Some(s) => WithoutCR(LastSegment(DropTrailingBreaks(s)))
  }

  /** What the two halves of that definition mean: s is a text without trailing
      breaks followed by breaks only, and a text is whole lines followed by a
      piece without newline. */
  lemma {:induction false} DropMeaning(s: seq<Byte>)
    ensures var d := DropTrailingBreaks(s);
            && d <= s
            && (d != [] ==> d[|d| - 1] != 10 && d[|d| - 1] != 13)
            && forall i :: |d| <= i < |s| ==> s[i] == 10 || s[i] == 13
  {
    if s != [] && IsBreak(s[|s| - 1]) {
      DropMeaning(s[..|s| - 1]);
    }
  }

  lemma {:induction false} SegmentMeaning(s: seq<Byte>) returns (before: seq<Byte>)
    ensures s == before + LastSegment(s)
    ensures 10 !in LastSegment(s)
    ensures before == [] || before[|before| - 1] == 10
  {
    if s == [] || s[|s| - 1] == LF {
      before := s;
    } else {
      before := SegmentMeaning(s[..|s| - 1]);
    }
  }

  /** What the scan gives on any file that is not all breaks, seen as whole lines, a
      last piece of a line and breaks: the piece without its carriage returns. */
  lemma LastLineIs(before: seq<Byte>, piece: seq<Byte>, breaks: seq<Byte>)
    requires before == [] || before[|before| - 1] == 10
    requires piece != [] && 10 !in piece && piece[|piece| - 1] != 13
    requires forall i :: 0 <= i < |breaks| ==> breaks[i] == 10 || breaks[i] == 13
    ensures LastLine(Some(before + piece + breaks)) == WithoutCR(piece)
  {
    hide LastSegment, WithoutCR;
    DropBreaks(before + piece, breaks);
    SegmentAfter(before, piece);
    EmptySegment(before);
    assert [] + piece == piece;
  }

  /** A file of breaks only, like an empty or an absent one, has no last line. */
  lemma NoLastLine(breaks: seq<Byte>)
    requires forall i :: 0 <= i < |breaks| ==> breaks[i] == 10 || breaks[i] == 13
    ensures LastLine(Some(breaks)) == LastLine(None) == []
  {
    DropMeaning(breaks);
  }

  lemma {:induction false} DropBreaks(text: seq<Byte>, breaks: seq<Byte>)
    requires text != [] && !IsBreak(text[|text| - 1])
    requires forall i :: 0 <= i < |breaks| ==> breaks[i] == 10 || breaks[i] == 13
    ensures DropTrailingBreaks(text + breaks) == text
  {
    if breaks == [] {
      assert text + breaks == text;
    } else {
      assert (text + breaks)[..|text + breaks| - 1] == text + breaks[..|breaks| - 1];
      DropBreaks(text, breaks[..|breaks| - 1]);
    }
  }

  /** Dropping the carriage returns keeps every other byte, in order. */
  lemma WithoutCRIs(a: seq<Byte>, b: seq<Byte>)
    requires 13 !in a
    ensures WithoutCR(a) == a && WithoutCR(a + [13] + b) == a + WithoutCR(b)
  {
    hide WithoutCR;
    WithoutCRKeeps(a);
    WithoutCRConcat(a + [13], b);
    WithoutCRConcat(a, [13]);
    OnlyCR();
    assert a + [] == a;
  }

  lemma OnlyCR()
    ensures WithoutCR([13]) == []
  {
    assert [13][..0] == [];
  }

  /** One step of the backward scan: taking the byte at pos into the result. */
  lemma ScanStep(file: seq<Byte>, pos: nat, reversed: seq<Byte>)
    requires pos < |file|
    ensures var rest := WithoutCR(LastSegment(file[..pos + 1]));
            if file[pos] == LF then rest == []
            else rest + Reverse(reversed) ==
                 WithoutCR(LastSegment(file[..pos]))
                 + Reverse(if file[pos] == CR then reversed else reversed + [file[pos]])
  {
    var ch := file[pos];
    assert file[..pos + 1][..pos] == file[..pos];
    if ch != LF {
      var seg := LastSegment(file[..pos]);
      assert (seg + [ch])[..|seg|] == seg;
      ReverseSnoc(reversed, ch);
    }
  }

  /** Where the first loop stops, the second one starts on the right text, even
      when the file holds nothing but line breaks. */
  lemma StartOfScan(file: seq<Byte>, pos: nat)
    requires pos < |file|
    requires var kept := DropTrailingBreaks(file);
             kept == file[..pos + 1] || (kept == [] && pos == 0)
    ensures LastLine(Some(file)) == WithoutCR(LastSegment(file[..pos + 1]))
  {
    hide DropTrailingBreaks, LastSegment, WithoutCR;
    var kept, part := DropTrailingBreaks(file), file[..pos + 1];
    assert LastLine(Some(file)) == WithoutCR(LastSegment(kept));
    if kept == [] && pos == 0 {
      assert part == file[..1];
      BlankStart(file);
    } else {
      assert kept == part;
    }
  }

  lemma BlankStart(file: seq<Byte>)
    requires file != [] && DropTrailingBreaks(file) == []
    ensures WithoutCR(LastSegment(file[..1])) == WithoutCR(LastSegment([])) == []
  {
    hide DropTrailingBreaks, LastSegment, WithoutCR;
    DropMeaning(file);
    assert file[0] == 10 || file[0] == 13;
    OnlyBreak(file[0]);
    assert file[..1] == [file[0]];
  }

  lemma OnlyBreak(b: Byte)
    requires IsBreak(b)
    ensures WithoutCR(LastSegment([])) == WithoutCR(LastSegment([b])) == []
  {
    assert [b][..0] == [];
    if b == CR {
      assert LastSegment([b]) == [b];
    }
  }

  /** The first loop: the position of the last byte that is no line break, or 0. */
  method SkipTrailingBreaks(file: seq<Byte>) returns (pos: nat)
    requires file != []
    ensures pos < |file|
    ensures DropTrailingBreaks(file) == file[..pos + 1] || (DropTrailingBreaks(file) == [] && pos == 0)
  {
    pos := |file|;
    assert file[..pos] == file;
    while pos > 0
      invariant pos <= |file|
      invariant DropTrailingBreaks(file[..pos]) == DropTrailingBreaks(file)
    {
      pos := pos - 1;
      var ch := file[pos];
      assert file[..pos + 1][..pos] == file[..pos];
      if ch != LF && ch != CR {
        return;
      }
    }
  }

  /** The second loop: collect backwards until a newline or the start. */
  method CollectBackwards(file: seq<Byte>, start: nat) returns (reversed: seq<Byte>)
    requires start < |file|
    ensures Reverse(reversed) == WithoutCR(LastSegment(file[..start + 1]))
  {
    reversed := [];
    var pos := start;
    ghost var want := WithoutCR(LastSegment(file[..start + 1]));
    ghost var todo := want;
    while true
      invariant 0 <= pos < |file|
      invariant todo == WithoutCR(LastSegment(file[..pos + 1]))
      invariant want == todo + Reverse(reversed)
      decreases pos
    {
      var ch := file[pos];
      ScanStep(file, pos, reversed);
      if ch == LF {
        break;
      }
      if ch != CR {
        reversed := reversed + [ch];
      }
      todo := WithoutCR(LastSegment(file[..pos]));
      if pos == 0 {
        assert todo == [];
        break;
      }
      pos := pos - 1;
    }
  }

  method GetLastLineOfFile(contents: Option<seq<Byte>>) returns (line: seq<Byte>)
    ensures line == LastLine(contents)
  {
    if contents == None {
      return [];
    }
    var file := contents.value;
    if |file| == 0 {
      return [];
    }
    var pos := SkipTrailingBreaks(file);
    StartOfScan(file, pos);
    var reversed := CollectBackwards(file, pos);
    line := Reverse(reversed);
  }

  // ---- the scan on a log file

  lemma {:induction false} WithoutCRConcat(a: seq<Byte>, b: seq<Byte>)
    ensures WithoutCR(a + b) == WithoutCR(a) + WithoutCR(b)
  {
    if b == [] {
      assert a + b == a;
    } else {
      assert (a + b)[..|a + b| - 1] == a + b[..|b| - 1];
      WithoutCRConcat(a, b[..|b| - 1]);
    }
  }

  lemma {:induction false} WithoutCRKeeps(s: seq<Byte>)
    requires CR !in s
    ensures WithoutCR(s) == s
  {
    if s != [] {
      WithoutCRKeeps(s[..|s| - 1]);
      assert s == s[..|s| - 1] + [s[|s| - 1]];
    }
  }

  lemma {:induction false} SegmentAfter(before: seq<Byte>, body: seq<Byte>)
    requires LF !in body
    ensures LastSegment(before + body) == LastSegment(before) + body
  {
    if body == [] {
      assert before + body == before;
    } else {
      var t := body[..|body| - 1];
      assert (before + body)[..|before + body| - 1] == before + t;
      SegmentAfter(before, t);
      assert body == t + [body[|body| - 1]];
    }
  }

  lemma LastLineOfText(before: seq<Byte>, body: seq<Byte>)
    requires before == [] || before[|before| - 1] == LF
    requires body != [] && LF !in body && !IsBreak(body[|body| - 1])
    ensures LastLine(Some(before + body + [LF])) == WithoutCR(body)
  {
    LastLineIs(before, body, [LF]);
  }

  lemma EmptySegment(before: seq<Byte>)
    requires before == [] || before[|before| - 1] == LF
    ensures LastSegment(before) == []
  {
  }

  lemma LinesEnd(es: seq<LogEntry>)
    ensures es != [] ==> Lines(es) != [] && Lines(es)[|Lines(es)| - 1] == LF
  {
  }

  lemma BodyEndsInDigit(e: LogEntry)
    ensures TextBody(e) != [] && IsDigit(TextBody(e)[|TextBody(e)| - 1])
  {
    var v := Decimal(e.value);
    assert TextBody(e)[|TextBody(e)| - 1] == v[|v| - 1];
  }

  /** The last line of a log file is its last entry's line, whatever the earlier
      names hold. */
  lemma LastLineOfLines(es: seq<LogEntry>)
    requires es != [] && LF !in es[|es| - 1].name
    ensures LastLine(Some(Lines(es))) == WithoutCR(TextBody(es[|es| - 1]))
  {
    var init, e := es[..|es| - 1], es[|es| - 1];
    LinesEnd(init);
    BodyHasNoNewline(e);
    BodyEndsInDigit(e);
    Associate(Lines(init), TextBody(e), [LF]);
    LastLineOfText(Lines(init), TextBody(e));
  }

  /** A body still starts with its number and a bar when carriage returns go. */
  lemma HeadKept(id: U64, rest: seq<Byte>)
    ensures WithoutCR(Decimal(id) + [BAR] + rest) == Decimal(id) + [BAR] + WithoutCR(rest)
  {
    hide WithoutCR;
    WithoutCRConcat(Decimal(id) + [BAR], rest);
    DecimalHas(id, CR);
    WithoutCRKeeps(Decimal(id) + [BAR]);
  }

  /** The number of a line that starts with it and a bar. */
  lemma HeadParsed(id: U64, rest: seq<Byte>, prior: LogEntry, junk: U32)
    requires LF !in rest
    ensures ParseLine(Streams.Fresh(Decimal(id) + [BAR] + rest), prior, junk).entry.id == id
  {
    hide ParseBody;
    var line := Decimal(id) + [BAR] + rest;
    DecimalHas(id, LF);
    assert Streams.Find(line, LF) == |line|;
    IdBack(id, rest, prior, junk);
  }

  lemma BodySplit(e: LogEntry)
    ensures TextBody(e) == Decimal(e.id) + [BAR] + (e.name + [BAR] + TextTail(e))
    ensures LF !in e.name ==> LF !in e.name + [BAR] + TextTail(e)
  {
    if LF !in e.name {
      BodyHasNoNewline(e);
    }
  }

  /** Parsing that line recovers the last id, carriage returns or not. */
  lemma LastIdOfLines(es: seq<LogEntry>, prior: LogEntry, junk: U32)
    requires es != [] && LF !in es[|es| - 1].name
    ensures LastLine(Some(Lines(es))) != []
    ensures ParseLine(Streams.Fresh(LastLine(Some(Lines(es)))), prior, junk).entry.id == es[|es| - 1].id
  {
    hide LastLine, Lines, ParseLine, TextBody, TextTail, WithoutCR, Decimal;
    var e := es[|es| - 1];
    var rest := e.name + [BAR] + TextTail(e);
    LastLineOfLines(es);
    BodySplit(e);
    HeadKept(e.id, rest);
    WithoutCRNoNewline(rest);
    HeadParsed(e.id, WithoutCR(rest), prior, junk);
  }

  lemma {:induction false} WithoutCRNoNewline(s: seq<Byte>)
    requires LF !in s
    ensures LF !in WithoutCR(s)
  {
    if s != [] {
      WithoutCRNoNewline(s[..|s| - 1]);
    }
  }

}
