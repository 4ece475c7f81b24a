/** JSON text: the compact writer (`serde_json::to_string`) and a reader for the same subset
    (`serde_json::Deserializer`), with the round trip between them.

    The reader works on the remaining input: it returns the value together with the text left
    after it, so the number of characters a value consumed is the difference in length. */
module JsonText {
  import opened Results
  import opened Json

  predicate IsWhitespace(c: char)
  {
    c == ' ' || c == '\n' || c == '\t' || c == '\r'
  }

  predicate IsDigit(c: char)
  {
    '0' <= c <= '9'
  }

  /** Text made only of JSON whitespace. */
  predicate Blank(sp: string)
  {
    forall i | 0 <= i < |sp| :: IsWhitespace(sp[i])
  }

  /** Drops leading JSON whitespace. */
  function SkipWhitespace(s: string): (r: string)
    ensures |r| <= |s|
    ensures |r| > 0 ==> !IsWhitespace(r[0])
  {
    if |s| > 0 && IsWhitespace(s[0]) then SkipWhitespace(s[1..]) else s
  }

  /** Skipping whitespace drops a blank prefix and keeps the rest as it was. */
  lemma {:induction false} SkipWhitespaceSplits(s: string)
    ensures var r := SkipWhitespace(s); r == s[|s| - |r|..] && Blank(s[..|s| - |r|])
  {
    if |s| > 0 && IsWhitespace(s[0]) {
      SkipWhitespaceSplits(s[1..]);
      var r := SkipWhitespace(s);
      assert s[..|s| - |r|] == [s[0]] + s[1..][..|s[1..]| - |r|];
    }
  }

  // ---------------------------------------------------------------------------------------------
  // Writer
  // ---------------------------------------------------------------------------------------------

  function DigitChar(d: nat): (c: char)
    requires d < 10
    ensures IsDigit(c)
  {
    ('0' as int + d) as char
  }

  function DigitValue(c: char): (d: nat)
    requires IsDigit(c)
    ensures d < 10
  {
    c as int - '0' as int
  }

  function HexChar(d: nat): char
    requires d < 16
  {
    if d < 10 then ('0' as int + d) as char else ('a' as int + d - 10) as char
  }

  predicate IsHex(c: char)
  {
    '0' <= c <= '9' || 'a' <= c <= 'f' || 'A' <= c <= 'F'
  }

  function HexValue(c: char): (r: nat)
    requires IsHex(c)
    ensures r < 16
  {
    if '0' <= c <= '9' then c as int - '0' as int
    else if 'a' <= c <= 'f' then c as int - 'a' as int + 10
    else c as int - 'A' as int + 10
  }

  /** Decimal digits of a natural number, without leading zeros. */
  function NatText(n: nat): string
  {
    if n < 10 then [DigitChar(n)] else NatText(n / 10) + [DigitChar(n % 10)]
  }

  /** An integer as serde_json writes it: an optional minus sign and its decimal digits. */
  function IntText(n: int): string
  {
    if n < 0 then "-" + NatText(-n) else NatText(n)
  }

  /** serde_json's escape of one string character: quote, backslash and the control characters
      are escaped, the five usual ones by name and the others as `\u00XX` in lower-case hex. */
  function EscapeChar(c: char): string
  {
    if c == '"' then "\\\""
    else if c == '\\' then "\\\\"
    else if c == '\n' then "\\n"
    else if c == '\r' then "\\r"
    else if c == '\t' then "\\t"
    else if c == 8 as char then "\\b"
    else if c == 12 as char then "\\f"
    else if c < ' ' then "\\u00" + [HexChar(c as int / 16), HexChar(c as int % 16)]
    else [c]
  }

  function Escape(s: string): string
  {
    if |s| == 0 then "" else EscapeChar(s[0]) + Escape(s[1..])
  }

  function Quote(s: string): string
  {
    "\"" + Escape(s) + "\""
  }

  /** A string serde_json writes without escapes. */
  predicate Plain(s: string)
  {
    forall i | 0 <= i < |s| :: s[i] != '"' && s[i] != '\\' && s[i] >= ' '
  }

  lemma {:induction false} QuotePlain(s: string)
    requires Plain(s)
    ensures Escape(s) == s
    ensures Quote(s) == "\"" + s + "\""
  {
    if |s| > 0 {
      assert Plain(s[1..]);
      QuotePlain(s[1..]);
      assert s == [s[0]] + s[1..];
    }
  }

  /** JSON text for `v`, with `sp` after every `,` and `:`. With an empty `sp` this is the
      compact form. */
  function Write(v: Value, sp: string): string
  {
    match v
    case Null => "null"
    case Bool(b) => if b then "true" else "false"
    case Number(n) => IntText(n)
    case String(s) => Quote(s)
    case Array(items) => "[" + WriteItems(items, sp) + "]"
    case Object(ms) => "{" + WriteMembers(ms, sp) + "}"
  }

  function WriteItems(items: seq<Value>, sp: string): string
  {
    if |items| == 0 then ""
    else if |items| == 1 then Write(items[0], sp)
    else Write(items[0], sp) + "," + sp + WriteItems(items[1..], sp)
  }

  function WriteMembers(ms: seq<Member>, sp: string): string
  {
    if |ms| == 0 then ""
    else if |ms| == 1 then Quote(ms[0].key) + ":" + sp + Write(ms[0].value, sp)
    else Quote(ms[0].key) + ":" + sp + Write(ms[0].value, sp) + "," + sp + WriteMembers(ms[1..], sp)
  }

  /** `serde_json::to_string`: the compact text of a value. */
  function Serialize(v: Value): string
  {
    Write(v, "")
  }

  // ---------------------------------------------------------------------------------------------
  // Reader
  // ---------------------------------------------------------------------------------------------

  /** A value read from the front of some text, with the text that follows it. */
  datatype Parse<+T> = Parsed(value: T, rest: string) | Malformed

  /** Reads a literal such as `null` that must appear in full. */
  function ParseLiteral(t: string, word: string, v: Value): (r: Parse<Value>)
    requires |word| > 0
    ensures r.Parsed? ==> |r.rest| < |t|
  {
    if |word| <= |t| && t[..|word|] == word then Parsed(v, t[|word|..]) else Malformed
  }

  /** Splits `s` into the run of digits at its front and the text after it. */
  function SplitDigits(s: string): (r: (string, string))
    ensures r.0 + r.1 == s
    ensures AllDigits(r.0)
    ensures |r.1| == 0 || !IsDigit(r.1[0])
  {
    if |s| > 0 && IsDigit(s[0]) then
      var r := SplitDigits(s[1..]);
      DigitsCons(s[0], r.0, r.1, s);
      ([s[0]] + r.0, r.1)
    else ("", s)
  }

  lemma DigitsCons(c: char, ds: string, rest: string, s: string)
    requires IsDigit(c) && AllDigits(ds) && |s| > 0 && s[0] == c && ds + rest == s[1..]
    ensures [c] + ds + rest == s && AllDigits([c] + ds)
  {
    assert s == [c] + s[1..];
  }

  predicate AllDigits(ds: string)
  {
    forall i | 0 <= i < |ds| :: IsDigit(ds[i])
  }

  /** The number a run of decimal digits denotes. */
  function DigitsValue(ds: string): nat
  {
    if |ds| == 0 then 0
    else DigitsValue(ds[..|ds| - 1]) * 10 + (if IsDigit(ds[|ds| - 1]) then DigitValue(ds[|ds| - 1]) else 0)
  }

  /** Reads the digits of an integer, after any minus sign. A leading zero followed by a digit is
      rejected, as serde_json does. A fraction or an exponent make serde_json read a float, which
      is outside this model: they are reported as malformed. */
  function ParseMagnitude(u: string): (r: Parse<nat>)
    ensures r.Parsed? ==> |r.rest| < |u|
  {
    var (ds, after) := SplitDigits(u);
    if |ds| == 0 || (ds[0] == '0' && |ds| > 1) then Malformed
    else if |after| > 0 && (after[0] == '.' || after[0] == 'e' || after[0] == 'E') then Malformed
    else Parsed(DigitsValue(ds), after)
  }

  /** Reads an integer. serde_json reads `-0` as a float, so it is outside this model too. */
  function ParseNumber(t: string): (r: Parse<Value>)
    requires |t| > 0
    ensures r.Parsed? ==> |r.rest| < |t|
  {
    if t[0] == '-' then
      match ParseMagnitude(t[1..])
      case Parsed(m, rest) => if m == 0 then Malformed else Parsed(Number(-(m as int)), rest)
      case Malformed => Malformed
    else
      match ParseMagnitude(t)
      case Parsed(m, rest) => Parsed(Number(m), rest)
      case Malformed => Malformed
  }

  /** Reads the character named by an escape, the text after the backslash. Surrogate code
      units, which serde_json pairs up, are outside this model. */
  function ParseEscape(s: string): (r: Parse<char>)
    ensures r.Parsed? ==> |r.rest| < |s|
  {
    if |s| == 0 then Malformed
    else if s[0] == '"' then Parsed('"', s[1..])
    else if s[0] == '\\' then Parsed('\\', s[1..])
    else if s[0] == '/' then Parsed('/', s[1..])
    else if s[0] == 'b' then Parsed(8 as char, s[1..])
    else if s[0] == 'f' then Parsed(12 as char, s[1..])
    else if s[0] == 'n' then Parsed('\n', s[1..])
    else if s[0] == 'r' then Parsed('\r', s[1..])
    else if s[0] == 't' then Parsed('\t', s[1..])
    else if s[0] == 'u' && |s| >= 5 && IsHex(s[1]) && IsHex(s[2]) && IsHex(s[3]) && IsHex(s[4]) then
      var code := ((HexValue(s[1]) * 16 + HexValue(s[2])) * 16 + HexValue(s[3])) * 16 + HexValue(s[4]);
      if 0xD800 <= code < 0xE000 then Malformed else Parsed(code as char, s[5..])
    else Malformed
  }

  /** Reads the characters of a string up to and past its closing quote. A raw control
      character is rejected, as serde_json does. */
  function ParseString(s: string): (r: Parse<string>)
    ensures r.Parsed? ==> |r.rest| < |s|
  {
    if |s| == 0 then Malformed
    else if s[0] == '"' then Parsed("", s[1..])
    else if s[0] == '\\' then
      match ParseEscape(s[1..])
      case Malformed => Malformed
      case Parsed(c, rest) => Prepend(c, ParseString(rest))
    else if s[0] < ' ' then Malformed
    else Prepend(s[0], ParseString(s[1..]))
  }

  function Prepend(c: char, p: Parse<string>): (r: Parse<string>)
    ensures r.Parsed? <==> p.Parsed?
    ensures p.Parsed? ==> r.rest == p.rest
  {
    match p
    case Parsed(cs, rest) => Parsed([c] + cs, rest)
    case Malformed => Malformed
  }

  /** serde_json's nesting limit: a read starts with this much depth to spend, every `[` and `{`
      spends one, and the read fails when none is left, so at most 127 arrays and objects nest. */
  const RECURSION_LIMIT: nat := 128

  /** Reads one JSON value after optional whitespace, with `depth` left to spend on nesting. */
  function ParseValue(s: string, depth: nat): (r: Parse<Value>)
    ensures r.Parsed? ==> |r.rest| < |s|
    decreases |s|, 0
  {
    var t := SkipWhitespace(s);
    if |t| == 0 then Malformed
    else if t[0] == 'n' then ParseLiteral(t, "null", Null)
    else if t[0] == 't' then ParseLiteral(t, "true", Bool(true))
    else if t[0] == 'f' then ParseLiteral(t, "false", Bool(false))
    else if t[0] == '-' || IsDigit(t[0]) then ParseNumber(t)
    else if t[0] == '"' then
      match ParseString(t[1..])
      case Parsed(str, rest) => Parsed(String(str), rest)
      case Malformed => Malformed
    else if t[0] == '[' then (if depth <= 1 then Malformed else ParseArray(t[1..], depth - 1))
    else if t[0] == '{' then (if depth <= 1 then Malformed else ParseObject(t[1..], depth - 1))
    else Malformed
  }

  /** Reads the elements of an array, the text after its `[`. */
  function ParseArray(s: string, depth: nat): (r: Parse<Value>)
    ensures r.Parsed? ==> |r.rest| < |s|
    decreases |s|, 2
  {
    var t := SkipWhitespace(s);
    if |t| > 0 && t[0] == ']' then Parsed(Array([]), t[1..]) else ParseItems(t, [], depth)
  }

  function ParseItems(s: string, acc: seq<Value>, depth: nat): (r: Parse<Value>)
    ensures r.Parsed? ==> |r.rest| < |s|
    decreases |s|, 1
  {
    match ParseValue(s, depth)
    case Malformed => Malformed
    case Parsed(v, rest) =>
      var t := SkipWhitespace(rest);
      if |t| == 0 then Malformed
      else if t[0] == ',' then ParseItems(t[1..], acc + [v], depth)
      else if t[0] == ']' then Parsed(Array(acc + [v]), t[1..])
      else Malformed
  }

  /** Reads the members of an object, the text after its `{`. A later member with the same key
      replaces an earlier one. */
  function ParseObject(s: string, depth: nat): (r: Parse<Value>)
    ensures r.Parsed? ==> |r.rest| < |s|
    decreases |s|, 2
  {
    var t := SkipWhitespace(s);
    if |t| > 0 && t[0] == '}' then Parsed(Object([]), t[1..]) else ParseMembers(t, [], depth)
  }

  function ParseMembers(s: string, acc: seq<Member>, depth: nat): (r: Parse<Value>)
    ensures r.Parsed? ==> |r.rest| < |s|
    decreases |s|, 1
  {
    match ParseMember(s, depth)
    case Malformed => Malformed
    case Parsed(m, rest) =>
      var t := SkipWhitespace(rest);
      var acc' := Insert(acc, m.key, m.value);
      if |t| == 0 then Malformed
      else if t[0] == ',' then ParseMembers(t[1..], acc', depth)
      else if t[0] == '}' then Parsed(Object(acc'), t[1..])
      else Malformed
  }

  /** Reads one member: a quoted key, `:` and a value. */
  function ParseMember(s: string, depth: nat): (r: Parse<Member>)
    ensures r.Parsed? ==> |r.rest| < |s|
    decreases |s|, 0
  {
    var t := SkipWhitespace(s);
    if |t| == 0 || t[0] != '"' then Malformed
    else
      match ParseString(t[1..])
      case Malformed => Malformed
      case Parsed(key, r1) =>
        var t1 := SkipWhitespace(r1);
        if |t1| == 0 || t1[0] != ':' then Malformed
        else
          match ParseValue(t1[1..], depth)
          case Malformed => Malformed
          case Parsed(v, r2) => Parsed(Member(key, v), r2)
  }

  /** `serde_json::from_str`: one value, and nothing but whitespace after it. */
  function FromStr(s: string): Option<Value>
  {
    match ParseValue(s, RECURSION_LIMIT)
    case Parsed(v, rest) => if |SkipWhitespace(rest)| == 0 then Some(v) else None
    case Malformed => None
  }
}
