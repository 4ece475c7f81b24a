/** `JsonCodec` of `json_codec.rs`: frames a byte stream as a sequence of JSON documents. Decoding
    reads one value from the front of the buffer the way serde_json's stream deserializer does
    and advances the buffer past it; encoding appends the compact text of a value and a newline. */
module JsonCodec {
  import opened Results
  import opened Json
  import opened JsonText
  import JsonRoundTrip
  import opened Framing
  import opened Text

  /** The one error decoding reports, whatever went wrong in the text. */
  const PARSE_ERROR: IoError := IoError(InvalidData, "Error while parsing JSON structure")

  /** A value starting with one of these characters ends at a closing character of its own. */
  predicate SelfDelimited(c: char)
  {
    c == '[' || c == '"' || c == '{'
  }

  /** The characters that may follow a number or a literal: whitespace, or the start or end of
      another structure. */
  predicate EndsScalar(c: char)
  {
    IsWhitespace(c) || c == '"' || c == '[' || c == ']' || c == '{' || c == '}' || c == ',' || c == ':'
  }

  /** `decode`: the first value of the stream, if there is one.
      - A buffer holding only whitespace yields nothing, and the whitespace is consumed.
      - A value is returned and the buffer advanced exactly past it; a number or literal must be
        followed by the end of the buffer or by a character from `EndsScalar`.
      - Any other text is an error. The buffer stays at the start of the failed value, or just
        past the number or literal that was followed by a stray character. */
  function Decode(buf: string): (d: Decoded<Value>)
    ensures IsSuffix(d.remaining, buf)
    ensures d.result.Err? ==> d.result.error == PARSE_ERROR
    ensures d.result == Ok(None) <==> Blank(buf)
    ensures d.result == Ok(None) ==> d.remaining == []
    ensures d.result.Ok? && d.result.value.Some? ==> |d.remaining| < |buf|
    ensures d.result.Ok? && d.result.value.Some? ==>
      ParseValue(buf, RECURSION_LIMIT) == Parsed(d.result.value.value, d.remaining)
    ensures d.result.Err? && ParseValue(buf, RECURSION_LIMIT).Malformed? ==> d.remaining == SkipWhitespace(buf)
    ensures d.result.Err? && ParseValue(buf, RECURSION_LIMIT).Parsed? ==>
      d.remaining == ParseValue(buf, RECURSION_LIMIT).rest
  {
    var t := SkipWhitespace(buf);
    SkipWhitespaceSplits(buf);
    if |t| == 0 then
      assert buf[..|buf|] == buf;
      Decoded(Ok(None), t)
    else
      assert !Blank(buf) by {
        assert buf[|buf| - |t|] == t[0];
      }
      assert SkipWhitespace(t) == t;
      assert buf == buf[..|buf| - |t|] + t;
      JsonRoundTrip.ParseValueAfterBlank(buf[..|buf| - |t|], t, RECURSION_LIMIT);
      match ParseValue(t, RECURSION_LIMIT)
      case Malformed => Decoded(Err(PARSE_ERROR), t)
      case Parsed(v, rest) =>
        JsonRoundTrip.ValueSuffix(t, RECURSION_LIMIT);
        SuffixTransitive(rest, t, buf);
        if SelfDelimited(t[0]) || |rest| == 0 || EndsScalar(rest[0]) then Decoded(Ok(Some(v)), rest)
        else Decoded(Err(PARSE_ERROR), rest)
  }

  /** `encode`: appends the compact text of `v` and a newline; what the buffer held before is
      left as it was. */
  function Encode(v: Value, buf: string): (r: string)
    ensures |r| == |buf| + |Serialize(v)| + 1
    ensures r[..|buf|] == buf
    ensures r[|buf|..] == Serialize(v) + "\n"
  {
    buf + Serialize(v) + "\n"
  }

  // ---------------------------------------------------------------------------------------------
  // Streams of frames
  // ---------------------------------------------------------------------------------------------

  /** Encoding the values one after the other. */
  function EncodeAll(vs: seq<Value>, buf: string): (r: string)
    ensures |r| >= |buf|
    ensures r[..|buf|] == buf
  {
    if |vs| == 0 then buf else EncodeAll(vs[1..], Encode(vs[0], buf))
  }

  /** The frames of `vs`: each value's compact text and a newline. */
  function Frames(vs: seq<Value>): string
  {
    if |vs| == 0 then "" else Serialize(vs[0]) + "\n" + Frames(vs[1..])
  }

  /** Decoding until the buffer runs dry or an error occurs: the values in the order they were
      decoded, and the call that stopped. */
  function DecodeAll(buf: string): (r: (seq<Value>, Decoded<Value>))
    ensures r.1.result.Err? || r.1.result == Ok(None)
    decreases |buf|
  {
    var d := Decode(buf);
    match d.result
    case Ok(Some(v)) =>
      var (vs, last) := DecodeAll(d.remaining);
      ([v] + vs, last)
    case _ => ([], d)
  }

  /** Encoding appends frames: the buffer is the old content followed by one frame per value,
      in order. */
  lemma {:induction false} EncodeAllAppends(vs: seq<Value>, buf: string)
    ensures EncodeAll(vs, buf) == buf + Frames(vs)
  {
    if |vs| > 0 {
      var frame := Serialize(vs[0]) + "\n";
      EncodeAllAppends(vs[1..], Encode(vs[0], buf));
      assert Encode(vs[0], buf) == buf + frame by {
        Assoc(buf, Serialize(vs[0]), "\n");
      }
      assert Frames(vs) == frame + Frames(vs[1..]);
      Assoc(buf, frame, Frames(vs[1..]));
    } else {
      assert buf + "" == buf;
    }
  }

  /** Whitespace in front of the buffer does not change what is decoded. */
  lemma DecodeAfterBlank(ws: string, s: string)
    requires Blank(ws)
    ensures Decode(ws + s) == Decode(s)
  {
    JsonRoundTrip.SkipWhitespaceBlank(ws, s);
  }

  lemma DecodeAllAfterBlank(ws: string, s: string)
    requires Blank(ws)
    ensures DecodeAll(ws + s) == DecodeAll(s)
  {
    DecodeAfterBlank(ws, s);
  }

  /** A value nested less deeply than the limit and written with the same blank after every `,`
      and `:` is decoded from the front of the buffer, and the buffer is advanced exactly past it. */
  lemma DecodeWritten(v: Value, sp: string, rest: string)
    requires Blank(sp) && JsonRoundTrip.EndsValue(rest) && Depth(v) < RECURSION_LIMIT
    requires |rest| > 0 ==> EndsScalar(rest[0]) || SelfDelimited(Write(v, sp)[0])
    ensures Decode(Write(v, sp) + rest) == Decoded(Ok(Some(Normalize(v))), rest)
  {
    JsonRoundTrip.WriteStart(v, sp);
    var text := Write(v, sp) + rest;
    assert text[0] == Write(v, sp)[0];
    assert SkipWhitespace(text) == text;
    JsonRoundTrip.ParseWrite(v, sp, rest, RECURSION_LIMIT);
  }

  /** One encoded frame decodes to its value, leaving the newline and what follows. */
  lemma DecodeFrame(v: Value, more: string)
    requires WellFormed(v) && Depth(v) < RECURSION_LIMIT
    ensures Decode(Serialize(v) + "\n" + more) == Decoded(Ok(Some(v)), "\n" + more)
  {
    NormalizeWellFormed(v);
    DecodeWritten(v, "", "\n" + more);
    assert Serialize(v) + "\n" + more == Write(v, "") + ("\n" + more);
  }

  /** Frames come out in the order they went in: decoding a buffer of encoded well-formed values,
      each nested less deeply than the limit, yields exactly those values and then finds the
      buffer empty. */
  lemma {:induction false} DecodeAllFrames(vs: seq<Value>)
    requires forall i | 0 <= i < |vs| :: WellFormed(vs[i]) && Depth(vs[i]) < RECURSION_LIMIT
    ensures DecodeAll(Frames(vs)) == (vs, Decoded(Ok(None), ""))
  {
    if |vs| > 0 {
      var more := Frames(vs[1..]);
      DecodeFrame(vs[0], more);
      assert Frames(vs) == Serialize(vs[0]) + "\n" + more;
      DecodeAllFrames(vs[1..]);
      assert Blank("\n");
      DecodeAllAfterBlank("\n", more);
      assert [vs[0]] + vs[1..] == vs;
    }
  }

  /** Encoding values into an empty buffer and decoding the buffer gives the values back, as long
      as none nests deeper than the reader allows. */
  lemma EncodeDecodeRoundTrip(vs: seq<Value>)
    requires forall i | 0 <= i < |vs| :: WellFormed(vs[i]) && Depth(vs[i]) < RECURSION_LIMIT
    ensures DecodeAll(EncodeAll(vs, "")) == (vs, Decoded(Ok(None), ""))
  {
    EncodeAllAppends(vs, "");
    assert "" + Frames(vs) == Frames(vs);
    DecodeAllFrames(vs);
  }

  /** Two written arrays, one behind the other and after any blank: each decodes on its own. */
  lemma WrittenArrays(a: Value, b: Value, sp: string, ws: string)
    requires a.Array? && b.Array? && WellFormed(a) && WellFormed(b)
    requires Depth(a) < RECURSION_LIMIT && Depth(b) < RECURSION_LIMIT
    requires Blank(sp) && Blank(ws)
    ensures Decode(Write(a, sp)) == Decoded(Ok(Some(a)), "")
    ensures Decode(ws + Write(a, sp)) == Decoded(Ok(Some(a)), "")
    ensures Decode(Write(a, sp) + Write(b, sp)) == Decoded(Ok(Some(a)), Write(b, sp))
    ensures Decode(Write(b, sp)) == Decoded(Ok(Some(b)), "")
  {
    NormalizeWellFormed(a);
    NormalizeWellFormed(b);
    DecodeWritten(a, sp, "");
    assert Write(a, sp) + "" == Write(a, sp);
    DecodeWritten(b, sp, "");
    assert Write(b, sp) + "" == Write(b, sp);
    DecodeAfterBlank(ws, Write(a, sp));
    assert Write(b, sp)[0] == '[';
    DecodeWritten(a, sp, Write(b, sp));
  }

  /** The documented decodes: `[1, 2, 3]` alone, after leading spaces, and followed by
      `[4, 5, 6]`, which the next call returns. */
  lemma ArrayExamples(a: Value, b: Value, ws: string)
    requires a == Array([Number(1), Number(2), Number(3)])
    requires b == Array([Number(4), Number(5), Number(6)])
    requires ws == "     "
    ensures Decode(Write(a, " ")) == Decoded(Ok(Some(a)), "")
    ensures Decode(ws + Write(a, " ")) == Decoded(Ok(Some(a)), "")
    ensures Decode(Write(a, " ") + Write(b, " ")) == Decoded(Ok(Some(a)), Write(b, " "))
    ensures Decode(Write(b, " ")) == Decoded(Ok(Some(b)), "")
  {
    assert Blank(" ") && Blank(ws);
    assert WellFormed(a) && WellFormed(b);
    WrittenArrays(a, b, " ", ws);
  }

  // ---------------------------------------------------------------------------------------------
  // Errors
  // ---------------------------------------------------------------------------------------------

  /** After text that is not JSON the buffer does not move: decoding again reports the same error
      at the same place, so one bad frame blocks every frame behind it. */
  lemma MalformedBlocks(buf: string)
    requires !Blank(buf) && ParseValue(SkipWhitespace(buf), RECURSION_LIMIT).Malformed?
    ensures Decode(buf).result == Err(PARSE_ERROR)
    ensures Decode(Decode(buf).remaining) == Decode(buf)
    ensures DecodeAll(buf) == ([], Decode(buf))
  {
    var t := SkipWhitespace(buf);
    if |t| > 0 {
      assert SkipWhitespace(t) == t;
    }
  }

  /** `{invalid}` is an error, and whatever follows it is never reached. */
  lemma InvalidObjectBlocks(more: string)
    ensures Decode("{invalid}" + more).result == Err(PARSE_ERROR)
    ensures DecodeAll("{invalid}" + more) == ([], Decoded(Err(PARSE_ERROR), "{invalid}" + more))
  {
    var buf := "{invalid}" + more;
    assert buf[0] == '{' && buf[1] == 'i';
    JsonRoundTrip.UnquotedKey(buf, RECURSION_LIMIT);
    assert !Blank(buf) by { assert !IsWhitespace(buf[0]); }
    MalformedBlocks(buf);
  }

  /** A value nested at least as deeply as the limit is an error, however it is written. */
  lemma DecodeTooDeep(v: Value, sp: string, rest: string)
    requires Blank(sp) && Depth(v) >= RECURSION_LIMIT
    ensures Decode(Write(v, sp) + rest) == Decoded(Err(PARSE_ERROR), Write(v, sp) + rest)
  {
    JsonRoundTrip.WriteStart(v, sp);
    var text := Write(v, sp) + rest;
    assert text[0] == Write(v, sp)[0];
    assert SkipWhitespace(text) == text;
    JsonRoundTrip.DeepWriteMalformed(v, sp, rest, RECURSION_LIMIT);
  }

  // ---------------------------------------------------------------------------------------------
  // A frame is one line
  // ---------------------------------------------------------------------------------------------

  lemma {:induction false} EscapeNoNewline(s: string)
    ensures NoNewline(Escape(s))
  {
    if |s| > 0 {
      var c := s[0];
      if c < ' ' && c != '\n' && c != '\r' && c != '\t' && c != 8 as char && c != 12 as char {
        var hi, lo := HexChar(c as int / 16), HexChar(c as int % 16);
        assert EscapeChar(c) == "\\u00" + [hi, lo];
      }
      assert NoNewline(EscapeChar(c));
      EscapeNoNewline(s[1..]);
      NoNewlineConcat(EscapeChar(c), Escape(s[1..]));
    }
  }

  lemma NumberNoNewline(n: int)
    ensures NoNewline(IntText(n))
  {
    JsonRoundTrip.NatTextDigits(if n < 0 then -n else n);
    var ds := NatText(if n < 0 then -n else n);
    assert forall i | 0 <= i < |ds| :: IsDigit(ds[i]);
    if n < 0 {
      NoNewlineConcat("-", ds);
    }
  }

  /** The text the writer produces never contains a raw newline: control characters inside
      strings are escaped. */
  lemma {:induction false} WriteNoNewline(v: Value, sp: string)
    requires NoNewline(sp)
    ensures NoNewline(Write(v, sp))
    decreases v, 1
  {
    match v
    case Null =>
    case Bool(b) =>
    case Number(n) => NumberNoNewline(n);
    case String(str) =>
      EscapeNoNewline(str);
      NoNewlineConcat("\"", Escape(str));
      NoNewlineConcat("\"" + Escape(str), "\"");
    case Array(items) =>
      WriteItemsNoNewline(items, sp);
      NoNewlineConcat("[", WriteItems(items, sp));
      NoNewlineConcat("[" + WriteItems(items, sp), "]");
    case Object(ms) =>
      WriteMembersNoNewline(ms, sp);
      NoNewlineConcat("{", WriteMembers(ms, sp));
      NoNewlineConcat("{" + WriteMembers(ms, sp), "}");
  }

  lemma {:induction false} WriteItemsNoNewline(items: seq<Value>, sp: string)
    requires NoNewline(sp)
    ensures NoNewline(WriteItems(items, sp))
    decreases items, 0
  {
    if |items| > 0 {
      WriteNoNewline(items[0], sp);
      if |items| > 1 {
        WriteItemsNoNewline(items[1..], sp);
        var a := Write(items[0], sp);
        NoNewlineConcat(a, ",");
        NoNewlineConcat(a + ",", sp);
        NoNewlineConcat(a + "," + sp, WriteItems(items[1..], sp));
      }
    }
  }

  lemma {:induction false} WriteMembersNoNewline(ms: seq<Member>, sp: string)
    requires NoNewline(sp)
    ensures NoNewline(WriteMembers(ms, sp))
    decreases ms, 0
  {
    if |ms| > 0 {
      EscapeNoNewline(ms[0].key);
      var q := Quote(ms[0].key);
      NoNewlineConcat("\"", Escape(ms[0].key));
      NoNewlineConcat("\"" + Escape(ms[0].key), "\"");
      WriteNoNewline(ms[0].value, sp);
      NoNewlineConcat(q, ":");
      NoNewlineConcat(q + ":", sp);
      var a := q + ":" + sp + Write(ms[0].value, sp);
      NoNewlineConcat(q + ":" + sp, Write(ms[0].value, sp));
      if |ms| > 1 {
        WriteMembersNoNewline(ms[1..], sp);
        NoNewlineConcat(a, ",");
        NoNewlineConcat(a + ",", sp);
        NoNewlineConcat(a + "," + sp, WriteMembers(ms[1..], sp));
      }
    }
  }

  /** Each frame `encode` appends is one line: the value's text holds no newline, and the frame
      ends with one. */
  lemma FrameIsOneLine(v: Value, buf: string)
    ensures var frame := Encode(v, buf)[|buf|..];
      && frame[|frame| - 1] == '\n'
      && NoNewline(frame[..|frame| - 1])
  {
    WriteNoNewline(v, "");
    var frame := Encode(v, buf)[|buf|..];
    assert frame[..|frame| - 1] == Serialize(v);
  }
}
