/** `CommandsCodec` of `codec.rs`: commands arrive one JSON document per line, events leave one
    compact JSON object per line. The line framing is `LinesCodec`'s; each complete line is
    turned into a command by `create_command`, which reads the discriminator under `command`. */
module CommandsCodec {
  import opened Results
  import opened Json
  import opened JsonText
  import opened Framing
  import opened Text
  import LinesCodec
  import CommandParser
  import Events
  import JsonCodec

  type Command = CommandParser.Command

  /** The key `create_command` reads the command name from. */
  const CREATE_KEY: string := "command"

  /** A line `create_command` reads without panicking. */
  predicate LineSafe(line: string)
  {
    CommandParser.TextSafe(CREATE_KEY, line)
  }

  /** `create_command`: the command a line describes; a line that is not a JSON document is a
      wrong command. */
  function CreateCommand(line: string): (c: Command)
    requires LineSafe(line)
    ensures FromStr(line).None? ==> c.WrongCommand?
    ensures FromStr(line).Some? ==> c == CommandParser.CreateCommand(CREATE_KEY, FromStr(line).value)
  {
    CommandParser.ParseCommandText(CREATE_KEY, line)
  }

  /** The line a decode step produced, if any, is one `create_command` accepts. */
  predicate Liftable(d: Decoded<string>)
  {
    d.result.Ok? && d.result.value.Some? ==> LineSafe(d.result.value.value)
  }

  /** The `match` both decoders share: a line becomes a command, nothing and errors pass through,
      and the buffer is left as the line codec left it. */
  function Lift(d: Decoded<string>): (r: Decoded<Command>)
    requires Liftable(d)
    ensures r.remaining == d.remaining
    ensures r.result.Err? <==> d.result.Err?
    ensures r.result.Err? ==> r.result.error == d.result.error
    ensures r.result.Ok? ==> (r.result.value.Some? <==> d.result.value.Some?)
    ensures r.result.Ok? && r.result.value.Some? ==> r.result.value.value == CreateCommand(d.result.value.value)
  {
    match d.result
    case Ok(Some(line)) => Decoded(Ok(Some(CreateCommand(line))), d.remaining)
    case Ok(None) => Decoded(Ok(None), d.remaining)
    case Err(e) => Decoded(Err(e), d.remaining)
  }

  /** `decode`: the command on the first complete line, or nothing while no line feed has
      arrived. */
  function Decode(buf: string): (d: Decoded<Command>)
    requires Liftable(LinesCodec.Decode(buf))
    ensures d.result.Ok?
    ensures d.result.value.None? <==> NoNewline(buf)
    ensures d.result.value.None? ==> d.remaining == buf
    ensures d.result.value.Some? ==>
      var k := |buf| - |d.remaining| - 1;
      && 0 <= k && buf[k] == '\n' && NoNewline(buf[..k])
      && d.remaining == buf[k + 1..]
      && LineSafe(LinesCodec.WithoutCarriageReturn(buf[..k]))
      && d.result.value.value == CreateCommand(LinesCodec.WithoutCarriageReturn(buf[..k]))
  {
    Lift(LinesCodec.Decode(buf))
  }

  /** `decode_eof`: a complete line if there is one, otherwise the unterminated rest of the
      buffer, unless it is empty or a lone carriage return. */
  function DecodeEof(buf: string): (d: Decoded<Command>)
    requires Liftable(LinesCodec.DecodeEof(buf))
    ensures d.result.Ok?
    ensures !NoNewline(buf) ==> LinesCodec.DecodeEof(buf) == LinesCodec.Decode(buf) && d == Decode(buf)
    ensures NoNewline(buf) && (buf == "" || buf == "\r") ==> d == Decoded(Ok(None), buf)
    ensures NoNewline(buf) && buf != "" && buf != "\r" ==>
      && LineSafe(LinesCodec.WithoutCarriageReturn(buf))
      && d == Decoded(Ok(Some(CreateCommand(LinesCodec.WithoutCarriageReturn(buf)))), "")
  {
    Lift(LinesCodec.DecodeEof(buf))
  }

  /** `encode`: the event's compact JSON text and a line feed, after what the buffer held. A
      client reading that line gets the event's text back, and nothing is left over. */
  function Encode(e: Events.Event, buf: string): (r: string)
    ensures |r| > |buf| && r[..|buf|] == buf
    ensures r[|buf|..] == Events.ToString(e) + "\n"
    ensures LinesCodec.Decode(r[|buf|..]) == Decoded(Ok(Some(Events.ToString(e))), "")
  {
    EventLinePlain(e);
    EncodedLine(Events.ToString(e), buf);
    assert LinesCodec.Encode(Events.ToString(e), buf) == buf + (Events.ToString(e) + "\n");
    LinesCodec.Encode(Events.ToString(e), buf)
  }

  // ---------------------------------------------------------------------------------------------
  // One line each way
  // ---------------------------------------------------------------------------------------------

  /** The last character of the text of an object is its closing brace. */
  lemma ObjectEndsWithBrace(v: Value, sp: string)
    requires v.Object?
    ensures |Write(v, sp)| > 0 && Write(v, sp)[|Write(v, sp)| - 1] == '}'
  {
  }

  /** The text of an object, with spacing that holds no line feed, is a line the line codec gives
      back unchanged. */
  lemma ObjectLinePlain(v: Value, sp: string)
    requires v.Object? && NoNewline(sp)
    ensures LinesCodec.PlainLine(Write(v, sp))
  {
    JsonCodec.WriteNoNewline(v, sp);
    ObjectEndsWithBrace(v, sp);
  }

  /** A plain line appended to a buffer is read back alone from where the buffer ended. */
  lemma EncodedLine(line: string, buf: string)
    requires LinesCodec.PlainLine(line)
    ensures var r := LinesCodec.Encode(line, buf);
      LinesCodec.Decode(r[|buf|..]) == Decoded(Ok(Some(line)), "")
  {
    var r := LinesCodec.Encode(line, buf);
    var frame := LinesCodec.Encode(line, "") + "";
    assert r == buf + frame;
    assert r[|buf|..] == frame;
    LinesCodec.EncodeDecode(line, "");
  }

  lemma EventLinePlain(e: Events.Event)
    ensures LinesCodec.PlainLine(Events.ToString(e))
  {
    assert Events.ToString(e) == Serialize(Events.ToJson(e));
    ObjectLinePlain(Events.ToJson(e), "");
  }

  /** A client that reads the line `encode` wrote gets back the event it describes. */
  lemma EncodedEventReads(e: Events.Event, buf: string)
    ensures var line := LinesCodec.Decode(Encode(e, buf)[|buf|..]).result.value.value;
      && FromStr(line) == Some(Events.ToJson(e))
      && Events.FromJson(Events.ToJson(e)) == Some(e)
  {
    Events.EventRoundTrip(e);
  }

  /** A request object nested less deeply than the limit, written on one line with the same
      blank after every `,` and `:` and its members in any order, decodes to the command of the
      object serde_json builds from it, and the decoder stops right after its line feed. */
  lemma DecodeRequest(v: Value, sp: string, more: string)
    requires v.Object? && Blank(sp) && NoNewline(sp) && Depth(v) < RECURSION_LIMIT
    requires CommandParser.CommandSafe(CREATE_KEY, Normalize(v))
    ensures Liftable(LinesCodec.Decode(Write(v, sp) + "\n" + more))
    ensures Decode(Write(v, sp) + "\n" + more)
         == Decoded(Ok(Some(CommandParser.CreateCommand(CREATE_KEY, Normalize(v)))), more)
  {
    ObjectLinePlain(v, sp);
    LinesCodec.EncodeDecode(Write(v, sp), more);
    assert LinesCodec.Encode(Write(v, sp), "") == Write(v, sp) + "\n";
    CommandParser.WrittenCommand(CREATE_KEY, v, sp);
  }

  /** The same request without its line feed is read when the connection ends. */
  lemma DecodeEofRequest(v: Value, sp: string)
    requires v.Object? && Blank(sp) && NoNewline(sp) && Depth(v) < RECURSION_LIMIT
    requires CommandParser.CommandSafe(CREATE_KEY, Normalize(v))
    ensures Liftable(LinesCodec.DecodeEof(Write(v, sp)))
    ensures DecodeEof(Write(v, sp)) == Decoded(Ok(Some(CommandParser.CreateCommand(CREATE_KEY, Normalize(v)))), "")
  {
    ObjectLinePlain(v, sp);
    ObjectEndsWithBrace(v, sp);
    CommandParser.WrittenCommand(CREATE_KEY, v, sp);
  }

  // ---------------------------------------------------------------------------------------------
  // The documented exchanges
  // ---------------------------------------------------------------------------------------------

  /** An empty buffer holds no command yet. */
  lemma EmptyBufferDecodesNothing()
    ensures Decode("") == Decoded(Ok(None), "")
  {
  }

  /** `{}` followed by a line feed is a wrong command. */
  lemma EmptyObjectLine(v: Value)
    requires v == Object([])
    ensures Liftable(LinesCodec.Decode(Write(v, "") + "\n"))
    ensures Decode(Write(v, "") + "\n").result == Ok(Some(CommandParser.WrongCommand))
  {
    DecodeRequest(v, "", "");
    assert Write(v, "") + "\n" + "" == Write(v, "") + "\n";
  }

  /** The find request, written as `{"command": "find", "path": "file.txt"}` (one space after
      each `:` and `,`), decodes to a find command for its path. */
  lemma FindLine(v: Value, path: string, more: string)
    requires v == Object([Member("command", String("find")), Member("path", String(path))])
    ensures Liftable(LinesCodec.Decode(Write(v, " ") + "\n" + more))
    ensures Decode(Write(v, " ") + "\n" + more) == Decoded(Ok(Some(CommandParser.FindImage(path))), more)
  {
    assert KeyLess("command", "path");
    NormalizeWellFormed(v);
    assert Lookup(v.members, "command") == Some(String("find"));
    assert v.members[1..] == [Member("path", String(path))];
    assert Lookup(v.members, "path") == Some(String(path));
    MembersDepthBound(v.members, 0);
    DecodeRequest(v, " ", more);
  }

  /** Two find requests in one buffer come out in order: the first `decode` leaves exactly the
      second line, and the second `decode` (or `decode_eof`, when the second line has no line
      feed) reads it. */
  lemma TwoFindLines(v1: Value, v2: Value, p1: string, p2: string)
    requires v1 == Object([Member("command", String("find")), Member("path", String(p1))])
    requires v2 == Object([Member("command", String("find")), Member("path", String(p2))])
    ensures var buf := Write(v1, " ") + "\n" + (Write(v2, " ") + "\n");
      && Liftable(LinesCodec.Decode(buf))
      && Decode(buf).result == Ok(Some(CommandParser.FindImage(p1)))
      && Liftable(LinesCodec.Decode(Decode(buf).remaining))
      && Decode(Decode(buf).remaining) == Decoded(Ok(Some(CommandParser.FindImage(p2))), "")
    ensures var buf := Write(v1, " ") + "\n" + Write(v2, " ");
      && Liftable(LinesCodec.Decode(buf))
      && Decode(buf).result == Ok(Some(CommandParser.FindImage(p1)))
      && Liftable(LinesCodec.DecodeEof(Decode(buf).remaining))
      && DecodeEof(Decode(buf).remaining) == Decoded(Ok(Some(CommandParser.FindImage(p2))), "")
  {
    FindLine(v1, p1, Write(v2, " ") + "\n");
    FindLine(v2, p2, "");
    assert Write(v2, " ") + "\n" + "" == Write(v2, " ") + "\n";
    FindLine(v1, p1, Write(v2, " "));
    FindEof(v2, p2);
  }

  lemma FindEof(v: Value, path: string)
    requires v == Object([Member("command", String("find")), Member("path", String(path))])
    ensures Liftable(LinesCodec.DecodeEof(Write(v, " ")))
    ensures DecodeEof(Write(v, " ")) == Decoded(Ok(Some(CommandParser.FindImage(path))), "")
  {
    assert KeyLess("command", "path");
    NormalizeWellFormed(v);
    assert Lookup(v.members, "command") == Some(String("find"));
    assert v.members[1..] == [Member("path", String(path))];
    assert Lookup(v.members, "path") == Some(String(path));
    MembersDepthBound(v.members, 0);
    DecodeEofRequest(v, " ");
  }

  /** A member whose key and value need no escapes is written as the two strings in quotes. */
  lemma PlainStringMember(k: string, v: string)
    requires Plain(k) && Plain(v)
    ensures Events.StringMember(k, v) == "\"" + k + "\":\"" + v + "\""
  {
    QuotePlain(k);
    QuotePlain(v);
  }

  /** The found event for a path without characters to escape is written exactly as
      `{"event":"found","path":"<path>"}` and a line feed. */
  lemma FoundEventLine(path: string)
    requires Plain(path)
    ensures Encode(Events.Found(path), "") == "{\"event\":\"found\",\"path\":\"" + path + "\"}\n"
  {
    FoundEventText(path);
    EncodedText(Events.Found(path), "{\"event\":\"found\",\"path\":\"" + path, "\"}");
  }

  /** `encode` into an empty buffer writes the event's text and a line feed. */
  lemma EncodedText(e: Events.Event, t: string, close: string)
    requires Events.ToString(e) == t + close
    ensures Encode(e, "") == t + (close + "\n")
  {
    assert "" + (t + close) == t + close;
    Assoc(t, close, "\n");
  }

  lemma FoundEventText(path: string)
    requires Plain(path)
    ensures Events.ToString(Events.Found(path)) == "{\"event\":\"found\",\"path\":\"" + path + "\"}"
  {
    var e := Events.Found(path);
    Events.ToStringShape(e);
    var a, k := "\"event\":\"found\"", "\"path\":\"";
    FoundWords("event", "found", "path", a, k);
    FoundText("event", "found", "path", path, a, k);
  }

  /** The literal pieces of the found event's text. */
  lemma FoundWords(ev: string, fo: string, pa: string, a: string, k: string)
    requires ev == "event" && fo == "found" && pa == "path"
    requires a == "\"event\":\"found\"" && k == "\"path\":\""
    ensures Events.StringMember(ev, fo) == a && Plain(pa) && k == "\"" + pa + "\":\""
    ensures "{" + a + "," + k == "{\"event\":\"found\",\"path\":\""
  {
    WordsMember(ev, fo, a);
    PathKey(pa, k);
    FoundHead(a, k);
  }

  lemma WordsMember(ev: string, fo: string, a: string)
    requires ev == "event" && fo == "found" && a == "\"event\":\"found\""
    ensures Events.StringMember(ev, fo) == a
  {
    assert Plain(ev) && Plain(fo);
    PlainStringMember(ev, fo);
  }

  lemma PathKey(pa: string, k: string)
    requires pa == "path" && k == "\"path\":\""
    ensures Plain(pa) && k == "\"" + pa + "\":\""
  {
  }

  lemma FoundHead(a: string, k: string)
    requires a == "\"event\":\"found\"" && k == "\"path\":\""
    ensures "{" + a + "," + k == "{\"event\":\"found\",\"path\":\""
  {
  }

  /** The text of an object of two string members, the second holding a plain value, regrouped
      around that value. */
  lemma FoundText(ev: string, fo: string, pa: string, path: string, a: string, k: string)
    requires Events.StringMember(ev, fo) == a
    requires Plain(pa) && Plain(path) && k == "\"" + pa + "\":\""
    ensures "{" + Events.StringMember(ev, fo) + "," + Events.StringMember(pa, path) + "}"
         == "{" + a + "," + k + path + "\"}"
  {
    PlainStringMember(pa, path);
    Regroup("{" + a + ",", k, path);
  }

  lemma Regroup(x: string, k: string, path: string)
    ensures x + (k + path + "\"") + "}" == x + k + path + "\"}"
  {
    Assoc(x, k + path, "\"");
    Assoc(x, k, path);
    Assoc(x + k + path, "\"", "}");
    assert "\"" + "}" == "\"}";
  }

  // ---------------------------------------------------------------------------------------------
  // A whole connection
  // ---------------------------------------------------------------------------------------------

  /** Every line the connection delivers is one `create_command` accepts. */
  predicate StreamSafe(buf: string)
  {
    var lines := LinesCodec.DrainLines(buf);
    forall i | 0 <= i < |lines| :: LineSafe(lines[i])
  }

  /** The commands a framed reader yields for `buf` when the connection ends after it: `decode`
      while it finds lines, then `decode_eof` once. They are `create_command` of the lines, in
      order. */
  function DrainCommands(buf: string): (r: seq<Command>)
    requires StreamSafe(buf)
    ensures |r| == |LinesCodec.DrainLines(buf)|
    ensures forall i | 0 <= i < |r| :: r[i] == CreateCommand(LinesCodec.DrainLines(buf)[i])
    decreases |buf|
  {
    DrainSafe(buf);
    // `Decode(buf)` and `DecodeEof(buf)`, through the line codec they lift
    var d := Lift(LinesCodec.Decode(buf));
    if d.result.value.Some? then
      var rest := DrainCommands(d.remaining);
      ConsCommands(LinesCodec.Decode(buf).result.value.value, LinesCodec.DrainLines(d.remaining), rest);
      [d.result.value.value] + rest
    else
      var e := Lift(LinesCodec.DecodeEof(buf));
      if e.result.value.Some? then [e.result.value.value] else []
  }

  lemma ConsCommands(line: string, lines: seq<string>, cs: seq<Command>)
    requires LineSafe(line) && forall i | 0 <= i < |lines| :: LineSafe(lines[i])
    requires |cs| == |lines| && forall i | 0 <= i < |cs| :: cs[i] == CreateCommand(lines[i])
    ensures var r, ls := [CreateCommand(line)] + cs, [line] + lines;
      |r| == |ls| && forall i | 0 <= i < |r| :: LineSafe(ls[i]) && r[i] == CreateCommand(ls[i])
  {
    var r, ls := [CreateCommand(line)] + cs, [line] + lines;
    forall i | 0 <= i < |r| ensures LineSafe(ls[i]) && r[i] == CreateCommand(ls[i]) {
      if i > 0 {
        assert r[i] == cs[i - 1] && ls[i] == lines[i - 1];
      }
    }
  }

  /** How the lines of a connection split at the first `decode`, and that each part stays safe. */
  lemma DrainSafe(buf: string)
    requires StreamSafe(buf)
    ensures Liftable(LinesCodec.Decode(buf))
    ensures var d := LinesCodec.Decode(buf);
      d.result.value.Some? ==>
        && LinesCodec.DrainLines(buf) == [d.result.value.value] + LinesCodec.DrainLines(d.remaining)
        && StreamSafe(d.remaining)
    ensures var d := LinesCodec.Decode(buf);
      var e := LinesCodec.DecodeEof(buf);
      d.result.value.None? ==>
        && Liftable(e)
        && LinesCodec.DrainLines(buf) == (if e.result.value.Some? then [e.result.value.value] else [])
  {
    var d := LinesCodec.Decode(buf);
    var lines := LinesCodec.DrainLines(buf);
    if d.result.value.Some? {
      var tail := LinesCodec.DrainLines(d.remaining);
      assert lines == [d.result.value.value] + tail;
      assert lines[0] == d.result.value.value;
      forall i | 0 <= i < |tail| ensures LineSafe(tail[i]) {
        assert tail[i] == lines[i + 1];
      }
    } else {
      var e := LinesCodec.DecodeEof(buf);
      if e.result.value.Some? {
        assert lines[0] == e.result.value.value;
      }
    }
  }

  /** The text of one command as a client writes it. */
  function CommandText(c: Command): string
  {
    Serialize(CommandParser.CommandJson(CREATE_KEY, c))
  }

  /** Commands a client writes, one per line, reach the server as the same commands in the same
      order. */
  lemma RequestsRoundTrip(cs: seq<Command>)
    ensures var lines := seq(|cs|, i requires 0 <= i < |cs| => CommandText(cs[i]));
      && StreamSafe(LinesCodec.Join(lines))
      && DrainCommands(LinesCodec.Join(lines)) == cs
  {
    var lines := seq(|cs|, i requires 0 <= i < |cs| => CommandText(cs[i]));
    forall i | 0 <= i < |lines| ensures LinesCodec.PlainLine(lines[i]) && LineSafe(lines[i]) {
      ObjectLinePlain(CommandParser.CommandJson(CREATE_KEY, cs[i]), "");
      CommandParser.CommandTextRoundTrip(CREATE_KEY, cs[i]);
    }
    LinesCodec.DrainJoin(lines, "");
    assert LinesCodec.Join(lines) + "" == LinesCodec.Join(lines);
    assert LinesCodec.DrainLines(LinesCodec.Join(lines)) == lines;
    forall i | 0 <= i < |cs| ensures DrainCommands(LinesCodec.Join(lines))[i] == cs[i] {
      CommandParser.CommandTextRoundTrip(CREATE_KEY, cs[i]);
    }
  }
}
