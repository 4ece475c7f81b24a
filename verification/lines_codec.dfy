/** tokio-codec's `LinesCodec`, on which `CommandsCodec` frames its input: a frame is the text up
    to a line feed, without the line feed and without one carriage return before it. */
module LinesCodec {
  import opened Results
  import opened Framing
  import opened Text

  /** The position of the first line feed of `buf`, if there is one. */
  function FindNewline(buf: string): (r: Option<nat>)
    ensures r.None? <==> NoNewline(buf)
    ensures r.Some? ==> r.value < |buf| && buf[r.value] == '\n' && NoNewline(buf[..r.value])
  {
    if |buf| == 0 then None
    else if buf[0] == '\n' then Some(0)
    else
      match FindNewline(buf[1..])
      case None => None
      case Some(k) =>
        assert buf[..k + 1] == [buf[0]] + buf[1..][..k];
        Some(k + 1)
  }

  /** Drops one trailing carriage return. */
  function WithoutCarriageReturn(line: string): (r: string)
    ensures |line| > 0 && line[|line| - 1] == '\r' ==> line == r + "\r"
    ensures !(|line| > 0 && line[|line| - 1] == '\r') ==> r == line
  {
    if |line| > 0 && line[|line| - 1] == '\r' then line[..|line| - 1] else line
  }

  /** `decode`: the first complete line, or nothing while no line feed has arrived. Text is
      already characters here, so the codec's UTF-8 error cannot occur. */
  function Decode(buf: string): (d: Decoded<string>)
    ensures d.result.Ok?
    ensures d.result.value.None? <==> NoNewline(buf)
    ensures d.result.value.None? ==> d.remaining == buf
    ensures d.result.value.Some? ==>
      var k := |buf| - |d.remaining| - 1;
      && 0 <= k && buf[k] == '\n' && NoNewline(buf[..k])
      && d.remaining == buf[k + 1..]
      && d.result.value.value == WithoutCarriageReturn(buf[..k])
  {
    match FindNewline(buf)
    case None => Decoded(Ok(None), buf)
    case Some(k) => Decoded(Ok(Some(WithoutCarriageReturn(buf[..k]))), buf[k + 1..])
  }

  /** `decode_eof`: a complete line if there is one; otherwise the unterminated rest of the
      buffer as a last line, unless it is empty or a lone carriage return. */
  function DecodeEof(buf: string): (d: Decoded<string>)
    ensures d.result.Ok?
    ensures !NoNewline(buf) ==> d == Decode(buf)
    ensures NoNewline(buf) && (buf == "" || buf == "\r") ==> d == Decoded(Ok(None), buf)
    ensures NoNewline(buf) && buf != "" && buf != "\r" ==>
      d == Decoded(Ok(Some(WithoutCarriageReturn(buf))), "")
  {
    var d := Decode(buf);
    if d.result.value.Some? then d
    else if buf == "" || buf == "\r" then Decoded(Ok(None), buf)
    else Decoded(Ok(Some(WithoutCarriageReturn(buf))), "")
  }

  /** `encode`: the line and a line feed, after what the buffer held. */
  function Encode(line: string, buf: string): (r: string)
    ensures |r| == |buf| + |line| + 1
    ensures r[..|buf|] == buf && r[|buf|..|buf| + |line|] == line && r[|r| - 1] == '\n'
  {
    buf + line + "\n"
  }

  /** A line the codec gives back unchanged: no line feed inside, no carriage return at the end. */
  predicate PlainLine(line: string)
  {
    NoNewline(line) && !(|line| > 0 && line[|line| - 1] == '\r')
  }

  /** Reading what `encode` wrote gives the line back and leaves what followed it. */
  lemma EncodeDecode(line: string, more: string)
    requires PlainLine(line)
    ensures Decode(Encode(line, "") + more) == Decoded(Ok(Some(line)), more)
  {
    var buf := Encode(line, "") + more;
    FirstNewline(line, buf);
    assert buf[..|line|] == line;
    assert buf[|line| + 1..] == more;
  }

  /** The first line feed of text that starts with a line and a line feed is that line feed. */
  lemma FirstNewline(line: string, buf: string)
    requires NoNewline(line)
    requires |buf| > |line| && buf[..|line|] == line && buf[|line|] == '\n'
    ensures FindNewline(buf) == Some(|line|)
  {
    var f := FindNewline(buf);
    assert !NoNewline(buf);
    var k := f.value;
    forall i | 0 <= i < |line| ensures buf[i] != '\n' {
      assert buf[..|line|][i] == buf[i];
    }
    forall i | 0 <= i < k ensures buf[i] != '\n' {
      assert buf[..k][i] == buf[i];
    }
  }

  // ---------------------------------------------------------------------------------------------
  // Streams of lines
  // ---------------------------------------------------------------------------------------------

  /** The lines a reader gets from `buf` when the connection ends after it: every complete line,
      then the unterminated rest through `decode_eof`. */
  function DrainLines(buf: string): (r: seq<string>)
    decreases |buf|
  {
    var d := Decode(buf);
    if d.result.value.Some? then [d.result.value.value] + DrainLines(d.remaining)
    else
      var e := DecodeEof(buf);
      if e.result.value.Some? then [e.result.value.value] else []
  }

  /** The text of `lines`, each followed by a line feed. */
  function Join(lines: seq<string>): string
  {
    if |lines| == 0 then "" else lines[0] + "\n" + Join(lines[1..])
  }

  lemma DrainStep(line: string, more: string)
    requires PlainLine(line)
    ensures DrainLines(Encode(line, "") + more) == [line] + DrainLines(more)
  {
    EncodeDecode(line, more);
  }

  lemma DrainLast(last: string)
    requires PlainLine(last)
    ensures DrainLines(last) == if last == "" then [] else [last]
  {
    assert last != "\r";
  }

  lemma JoinFirst(lines: seq<string>, last: string)
    requires |lines| > 0
    ensures Join(lines) + last == Encode(lines[0], "") + (Join(lines[1..]) + last)
  {
    var line, j := lines[0], Join(lines[1..]);
    assert Join(lines) == line + "\n" + j;
    assert Encode(line, "") == line + "\n" by {
      assert "" + line == line;
    }
    Assoc(line + "\n", j, last);
  }

  lemma DrainFirst(lines: seq<string>, last: string)
    requires |lines| > 0 && PlainLine(lines[0])
    ensures DrainLines(Join(lines) + last) == [lines[0]] + DrainLines(Join(lines[1..]) + last)
  {
    JoinFirst(lines, last);
    DrainStep(lines[0], Join(lines[1..]) + last);
  }

  /** Lines come out in the order they were written, and an unterminated last line is flushed
      when the connection ends. */
  lemma {:induction false} DrainJoin(lines: seq<string>, last: string)
    requires forall i | 0 <= i < |lines| :: PlainLine(lines[i])
    requires PlainLine(last)
    ensures DrainLines(Join(lines) + last) == lines + (if last == "" then [] else [last])
  {
    var tail: seq<string> := if last == "" then [] else [last];
    if |lines| == 0 {
      assert Join(lines) + last == last;
      DrainLast(last);
    } else {
      PlainTail(lines);
      DrainFirst(lines, last);
      DrainJoin(lines[1..], last);
      ConsTail(lines, tail);
    }
  }

  lemma PlainTail(lines: seq<string>)
    requires |lines| > 0 && forall i | 0 <= i < |lines| :: PlainLine(lines[i])
    ensures PlainLine(lines[0]) && forall i | 0 <= i < |lines[1..]| :: PlainLine(lines[1..][i])
  {
    forall i | 0 <= i < |lines[1..]| ensures PlainLine(lines[1..][i]) {
      assert lines[1..][i] == lines[i + 1];
    }
  }

  lemma ConsTail(lines: seq<string>, tail: seq<string>)
    requires |lines| > 0
    ensures lines + tail == [lines[0]] + (lines[1..] + tail)
  {
    assert lines == [lines[0]] + lines[1..];
  }
}
