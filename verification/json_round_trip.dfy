/** Reading JSON text back: the reader returns exactly the value the writer was given, and stops
    exactly where the written text ends. */
module JsonRoundTrip {
  import opened Results
  import opened Json
  import opened JsonText
  import opened Text

  /** What may follow a written value so that the reader stops right after it: a number would
      otherwise run on into a following digit, fraction or exponent. */
  predicate EndsValue(rest: string)
  {
    |rest| == 0 || !(IsDigit(rest[0]) || rest[0] == '.' || rest[0] == 'e' || rest[0] == 'E')
  }

  lemma {:induction false} SkipWhitespaceBlank(sp: string, s: string)
    requires Blank(sp)
    ensures SkipWhitespace(sp + s) == SkipWhitespace(s)
  {
    if |sp| > 0 {
      var t := sp + s;
      assert IsWhitespace(sp[0]) && t[0] == sp[0];
      assert SkipWhitespace(t) == SkipWhitespace(t[1..]);
      assert Blank(sp[1..]) by {
        forall i | 0 <= i < |sp[1..]| ensures IsWhitespace(sp[1..][i]) {
          assert sp[1..][i] == sp[i + 1];
        }
      }
      assert t[1..] == sp[1..] + s;
      SkipWhitespaceBlank(sp[1..], s);
    } else {
      assert sp + s == s;
    }
  }

  lemma ParseValueAfterBlank(sp: string, s: string, depth: nat)
    requires Blank(sp)
    ensures ParseValue(sp + s, depth) == ParseValue(s, depth)
  {
    SkipWhitespaceBlank(sp, s);
  }

  lemma ParseItemsAfterBlank(sp: string, s: string, acc: seq<Value>, depth: nat)
    requires Blank(sp)
    ensures ParseItems(sp + s, acc, depth) == ParseItems(s, acc, depth)
  {
    ParseValueAfterBlank(sp, s, depth);
  }

  lemma ParseMembersAfterBlank(sp: string, s: string, acc: seq<Member>, depth: nat)
    requires Blank(sp)
    ensures ParseMembers(sp + s, acc, depth) == ParseMembers(s, acc, depth)
  {
    SkipWhitespaceBlank(sp, s);
    assert ParseMember(sp + s, depth) == ParseMember(s, depth);
  }

  // ---------------------------------------------------------------------------------------------
  // Numbers
  // ---------------------------------------------------------------------------------------------

  /** The decimal text of `n` is digits, has no leading zero, and reads back as `n`. */
  lemma {:induction false} NatTextDigits(n: nat)
    ensures |NatText(n)| > 0 && AllDigits(NatText(n))
    ensures NatText(n)[0] == '0' ==> n == 0 && |NatText(n)| == 1
    ensures DigitsValue(NatText(n)) == n
  {
    if n >= 10 {
      NatTextDigits(n / 10);
      var ds := NatText(n);
      assert ds == NatText(n / 10) + [DigitChar(n % 10)];
      assert ds[..|ds| - 1] == NatText(n / 10);
    }
  }

  /** The digit run of `ds + rest` is `ds` when `rest` does not continue it. */
  lemma {:induction false} SplitDigitsPrefix(ds: string, rest: string)
    requires AllDigits(ds)
    requires |rest| == 0 || !IsDigit(rest[0])
    ensures SplitDigits(ds + rest) == (ds, rest)
  {
    if |ds| > 0 {
      assert (ds + rest)[0] == ds[0];
      assert (ds + rest)[1..] == ds[1..] + rest;
      SplitDigitsPrefix(ds[1..], rest);
      assert [ds[0]] + ds[1..] == ds;
    } else {
      assert ds + rest == rest;
    }
  }

  lemma ParseNatText(m: nat, rest: string)
    requires EndsValue(rest)
    ensures ParseMagnitude(NatText(m) + rest) == Parsed(m, rest)
  {
    NatTextDigits(m);
    SplitDigitsPrefix(NatText(m), rest);
  }

  lemma ParseValueNumberStart(t: string, depth: nat)
    requires |t| > 0 && (t[0] == '-' || IsDigit(t[0]))
    ensures ParseValue(t, depth) == ParseNumber(t)
  {
    assert !IsWhitespace(t[0]);
    assert SkipWhitespace(t) == t;
    assert t[0] != 'n' && t[0] != 't' && t[0] != 'f';
  }

  lemma ParseIntText(n: int, rest: string, depth: nat)
    requires EndsValue(rest)
    ensures ParseValue(IntText(n) + rest, depth) == Parsed(Number(n), rest)
  {
    if n < 0 {
      ParseNegativeText(-n, rest, depth);
    } else {
      ParseNonNegativeText(n, rest, depth);
    }
  }

  lemma ParseNonNegativeText(m: nat, rest: string, depth: nat)
    requires EndsValue(rest)
    ensures ParseValue(IntText(m) + rest, depth) == Parsed(Number(m), rest)
  {
    NatTextDigits(m);
    ParseNatText(m, rest);
    var t := NatText(m) + rest;
    assert IntText(m) == NatText(m);
    assert IsDigit(t[0]);
    ParseValueNumberStart(t, depth);
    assert ParseNumber(t) == Parsed(Number(m), rest);
  }

  lemma ParseNegativeText(m: nat, rest: string, depth: nat)
    requires m > 0 && EndsValue(rest)
    ensures ParseValue(IntText(-(m as int)) + rest, depth) == Parsed(Number(-(m as int)), rest)
  {
    var n: int := -(m as int);
    var u := NatText(m) + rest;
    var t := IntText(n) + rest;
    assert IntText(n) == "-" + NatText(m);
    Assoc("-", NatText(m), rest);
    NegativeStart(t, u);
    ParseNatText(m, rest);
    assert ParseMagnitude(t[1..]) == Parsed(m, rest);
    ParseValueNumberStart(t, depth);
  }

  lemma NegativeStart(t: string, u: string)
    requires t == "-" + u
    ensures |t| > 0 && t[0] == '-' && t[1..] == u
  {
  }

  // ---------------------------------------------------------------------------------------------
  // Strings
  // ---------------------------------------------------------------------------------------------

  lemma HexRoundTrip(d: nat)
    requires d < 16
    ensures IsHex(HexChar(d)) && HexValue(HexChar(d)) == d
  {
  }

  /** Reading an escaped character gives the character back. */
  lemma ParseEscapeChar(c: char, rest: string)
    ensures ParseString(EscapeChar(c) + rest) == Prepend(c, ParseString(rest))
  {
    var s := EscapeChar(c) + rest;
    if c == '"' || c == '\\' || c == '\n' || c == '\r' || c == '\t' || c == 8 as char || c == 12 as char {
      assert s[0] == '\\' && s[1..][1..] == rest;
    } else if c < ' ' {
      var hi, lo := c as int / 16, c as int % 16;
      HexRoundTrip(hi);
      HexRoundTrip(lo);
      var e := s[1..];
      assert s[0] == '\\';
      assert e[0] == 'u' && e[1] == '0' && e[2] == '0' && e[3] == HexChar(hi) && e[4] == HexChar(lo);
      assert e[5..] == rest;
    } else {
      assert s[0] == c && s[1..] == rest;
    }
  }

  /** Reading the escaped text of `str` up to its closing quote gives `str` back. */
  lemma {:induction false} ParseQuoted(str: string, rest: string)
    ensures ParseString(Escape(str) + "\"" + rest) == Parsed(str, rest)
  {
    if |str| == 0 {
      assert Escape(str) + "\"" + rest == "\"" + rest;
    } else {
      assert Escape(str) + "\"" + rest == EscapeChar(str[0]) + (Escape(str[1..]) + "\"" + rest);
      ParseEscapeChar(str[0], Escape(str[1..]) + "\"" + rest);
      ParseQuoted(str[1..], rest);
      assert [str[0]] + str[1..] == str;
    }
  }

  // ---------------------------------------------------------------------------------------------
  // Values
  // ---------------------------------------------------------------------------------------------

  /** Written text starts with the first character of a value. */
  lemma WriteStart(v: Value, sp: string)
    ensures |Write(v, sp)| > 0
    ensures var c := Write(v, sp)[0]; !IsWhitespace(c) && c != ']' && c != '}'
  {
    match v
    case Number(n) =>
      NatTextDigits(if n < 0 then -n else n);
    case Array(items) =>
    case Object(ms) =>
    case _ =>
  }

  lemma ParseValueOpenBracket(s: string, depth: nat)
    requires |s| > 0 && s[0] == '['
    ensures depth > 1 ==> ParseValue(s, depth) == ParseArray(s[1..], depth - 1)
    ensures depth <= 1 ==> ParseValue(s, depth) == Malformed
  {
  }

  lemma ParseValueOpenBrace(s: string, depth: nat)
    requires |s| > 0 && s[0] == '{'
    ensures depth > 1 ==> ParseValue(s, depth) == ParseObject(s[1..], depth - 1)
    ensures depth <= 1 ==> ParseValue(s, depth) == Malformed
  {
  }

  /** One step of reading array elements: a value, then `,` or `]`. */
  lemma ParseItemsStep(s: string, acc: seq<Value>, v: Value, r: string, depth: nat)
    requires ParseValue(s, depth) == Parsed(v, r)
    requires |r| > 0 && (r[0] == ',' || r[0] == ']')
    ensures r[0] == ',' ==> ParseItems(s, acc, depth) == ParseItems(r[1..], acc + [v], depth)
    ensures r[0] == ']' ==> ParseItems(s, acc, depth) == Parsed(Array(acc + [v]), r[1..])
  {
    assert SkipWhitespace(r) == r;
  }

  /** One step of reading object members: a member, then `,` or `}`. */
  lemma ParseMembersStep(s: string, acc: seq<Member>, m: Member, r: string, depth: nat)
    requires ParseMember(s, depth) == Parsed(m, r)
    requires |r| > 0 && (r[0] == ',' || r[0] == '}')
    ensures r[0] == ',' ==> ParseMembers(s, acc, depth) == ParseMembers(r[1..], Insert(acc, m.key, m.value), depth)
    ensures r[0] == '}' ==> ParseMembers(s, acc, depth) == Parsed(Object(Insert(acc, m.key, m.value)), r[1..])
  {
    assert SkipWhitespace(r) == r;
  }

  lemma ParseValueLiteral(word: string, v: Value, rest: string, depth: nat)
    requires word == "null" || word == "true" || word == "false"
    requires v == (if word == "null" then Null else Bool(word == "true"))
    ensures ParseValue(word + rest, depth) == Parsed(v, rest)
  {
    var t := word + rest;
    assert t[0] == word[0] && SkipWhitespace(t) == t;
    assert t[..|word|] == word && t[|word|..] == rest;
  }

  lemma ParseValueQuote(str: string, rest: string, depth: nat)
    ensures ParseValue(Quote(str) + rest, depth) == Parsed(String(str), rest)
  {
    var t := Quote(str) + rest;
    QuoteStep(str, rest);
    assert SkipWhitespace(t) == t;
  }

  lemma ParseWriteScalar(v: Value, sp: string, rest: string, depth: nat)
    requires !v.Array? && !v.Object?
    requires EndsValue(rest)
    ensures ParseValue(Write(v, sp) + rest, depth) == Parsed(v, rest)
  {
    match v
    case Null => ParseValueLiteral("null", v, rest, depth);
    case Bool(b) => ParseValueLiteral(if b then "true" else "false", v, rest, depth);
    case Number(n) => ParseIntText(n, rest, depth);
    case String(str) => ParseValueQuote(str, rest, depth);
  }

  /** After `[`: either `]` at once, or the first element. */
  lemma ParseArrayStart(x: string, depth: nat)
    requires |x| > 0 && !IsWhitespace(x[0])
    ensures x[0] == ']' ==> ParseArray(x, depth) == Parsed(Array([]), x[1..])
    ensures x[0] != ']' ==> ParseArray(x, depth) == ParseItems(x, [], depth)
  {
    assert SkipWhitespace(x) == x;
  }

  /** After `{`: either `}` at once, or the first member. */
  lemma ParseObjectStart(x: string, depth: nat)
    requires |x| > 0 && !IsWhitespace(x[0])
    ensures x[0] == '}' ==> ParseObject(x, depth) == Parsed(Object([]), x[1..])
    ensures x[0] != '}' ==> ParseObject(x, depth) == ParseMembers(x, [], depth)
  {
    assert SkipWhitespace(x) == x;
  }

  /** An object whose first member does not start with a quoted key is malformed. */
  lemma UnquotedKey(s: string, depth: nat)
    requires |s| > 1 && s[0] == '{' && !IsWhitespace(s[1]) && s[1] != '"' && s[1] != '}'
    ensures ParseValue(s, depth) == Malformed
    ensures FromStr(s) == None
  {
    var inner := s[1..];
    assert !IsWhitespace(s[0]);
    if depth > 1 {
      UnquotedMember(inner, depth - 1);
    }
    ParseValueOpenBrace(s, depth);
    UnquotedMember(inner, RECURSION_LIMIT - 1);
    ParseValueOpenBrace(s, RECURSION_LIMIT);
  }

  lemma UnquotedMember(inner: string, depth: nat)
    requires |inner| > 0 && !IsWhitespace(inner[0]) && inner[0] != '"' && inner[0] != '}'
    ensures ParseObject(inner, depth) == Malformed
  {
    ParseObjectStart(inner, depth);
    assert SkipWhitespace(inner) == inner;
    assert ParseMember(inner, depth) == Malformed;
  }

  lemma {:induction false} ParseWrite(v: Value, sp: string, rest: string, depth: nat)
    requires Blank(sp) && EndsValue(rest) && Depth(v) < depth
    ensures ParseValue(Write(v, sp) + rest, depth) == Parsed(Normalize(v), rest)
    decreases v, 3
  {
    match v
    case Array(items) => ParseWriteArray(items, sp, rest, depth);
    case Object(ms) => ParseWriteObject(ms, sp, rest, depth);
    case _ => ParseWriteScalar(v, sp, rest, depth);
  }

  lemma {:induction false} ParseWriteArray(items: seq<Value>, sp: string, rest: string, depth: nat)
    requires Blank(sp) && Depth(Array(items)) < depth
    ensures ParseValue(Write(Array(items), sp) + rest, depth) == Parsed(Array(NormalizeItems(items)), rest)
    decreases items, 2
  {
    var x := WriteItems(items, sp) + "]" + rest;
    var inner: nat := depth - 1;
    OpenBracketText(items, sp, rest, depth);
    if |items| == 0 {
      assert x == "]" + rest;
      ParseArrayStart(x, inner);
      assert x[1..] == rest;
    } else {
      WriteStart(items[0], sp);
      assert x[0] == Write(items[0], sp)[0];
      ParseArrayStart(x, inner);
      ParseItemsWrite(items, sp, rest, [], inner);
      assert [] + NormalizeItems(items) == NormalizeItems(items);
    }
  }

  /** Reading written array text opens the array and spends one level of depth. */
  lemma OpenBracketText(items: seq<Value>, sp: string, rest: string, depth: nat)
    requires depth > 1
    ensures ParseValue(Write(Array(items), sp) + rest, depth) == ParseArray(WriteItems(items, sp) + "]" + rest, depth - 1)
  {
    var x := WriteItems(items, sp) + "]" + rest;
    var s := Write(Array(items), sp) + rest;
    assert s == "[" + x;
    ParseValueOpenBracket(s, depth);
    assert s[1..] == x;
  }

  /** Reading written object text opens the object and spends one level of depth. */
  lemma OpenBraceText(ms: seq<Member>, sp: string, rest: string, depth: nat)
    requires depth > 1
    ensures ParseValue(Write(Object(ms), sp) + rest, depth) == ParseObject(WriteMembers(ms, sp) + "}" + rest, depth - 1)
  {
    var x := WriteMembers(ms, sp) + "}" + rest;
    var s := Write(Object(ms), sp) + rest;
    Assoc("{" + WriteMembers(ms, sp), "}", rest);
    Assoc("{", WriteMembers(ms, sp), "}" + rest);
    Assoc(WriteMembers(ms, sp), "}", rest);
    assert s == "{" + x;
    ParseValueOpenBrace(s, depth);
    assert s[1..] == x;
  }

  lemma {:induction false} ParseWriteObject(ms: seq<Member>, sp: string, rest: string, depth: nat)
    requires Blank(sp) && Depth(Object(ms)) < depth
    ensures ParseValue(Write(Object(ms), sp) + rest, depth) == Parsed(Object(InsertAll([], NormalizeMembers(ms))), rest)
    decreases ms, 2
  {
    var x := WriteMembers(ms, sp) + "}" + rest;
    var inner: nat := depth - 1;
    OpenBraceText(ms, sp, rest, depth);
    if |ms| == 0 {
      assert x == "}" + rest;
      ParseObjectStart(x, inner);
      assert x[1..] == rest;
    } else {
      assert x[0] == '"';
      ParseObjectStart(x, inner);
      ParseMembersWrite(ms, sp, rest, [], inner);
    }
  }

  /** The last element of an array, then `]`. */
  lemma ItemsLastStep(xt: string, nx: Value, rest: string, acc: seq<Value>, depth: nat)
    requires ParseValue(xt + ("]" + rest), depth) == Parsed(nx, "]" + rest)
    ensures ParseItems(xt + "]" + rest, acc, depth) == Parsed(Array(acc + [nx]), rest)
  {
    assert xt + "]" + rest == xt + ("]" + rest);
    ParseItemsStep(xt + ("]" + rest), acc, nx, "]" + rest, depth);
    assert ("]" + rest)[1..] == rest;
  }

  /** An element of an array followed by `,`, whitespace and more elements. */
  lemma ItemsNextStep(xt: string, nx: Value, sp: string, more: string, acc: seq<Value>, depth: nat)
    requires Blank(sp)
    requires ParseValue(xt + ("," + sp + more), depth) == Parsed(nx, "," + sp + more)
    ensures ParseItems(xt + ("," + sp + more), acc, depth) == ParseItems(more, acc + [nx], depth)
  {
    var r := "," + sp + more;
    ParseItemsStep(xt + r, acc, nx, r, depth);
    assert r[1..] == sp + more;
    ParseItemsAfterBlank(sp, more, acc + [nx], depth);
  }

  lemma {:induction false} ParseItemsWrite(items: seq<Value>, sp: string, rest: string, acc: seq<Value>, depth: nat)
    requires |items| > 0 && Blank(sp) && ItemsDepth(items) < depth
    ensures ParseItems(WriteItems(items, sp) + "]" + rest, acc, depth) == Parsed(Array(acc + NormalizeItems(items)), rest)
    decreases items, 1
  {
    var nx := Normalize(items[0]);
    assert NormalizeItems(items) == [nx] + NormalizeItems(items[1..]);
    if |items| == 1 {
      assert NormalizeItems(items[1..]) == [];
      assert NormalizeItems(items) == [nx];
      ParseLastItemWrite(items, sp, rest, acc, depth);
    } else {
      ParseNextItemWrite(items, sp, rest, acc, depth);
      ParseItemsWrite(items[1..], sp, rest, acc + [nx], depth);
      assert acc + [nx] + NormalizeItems(items[1..]) == acc + NormalizeItems(items);
    }
  }

  lemma ParseLastItemWrite(items: seq<Value>, sp: string, rest: string, acc: seq<Value>, depth: nat)
    requires |items| == 1 && Blank(sp) && ItemsDepth(items) < depth
    ensures ParseItems(WriteItems(items, sp) + "]" + rest, acc, depth) == Parsed(Array(acc + [Normalize(items[0])]), rest)
    decreases items, 0
  {
    var xt := Write(items[0], sp);
    assert WriteItems(items, sp) == xt;
    ParseWrite(items[0], sp, "]" + rest, depth);
    ItemsLastStep(xt, Normalize(items[0]), rest, acc, depth);
  }

  lemma ParseNextItemWrite(items: seq<Value>, sp: string, rest: string, acc: seq<Value>, depth: nat)
    requires |items| > 1 && Blank(sp) && Depth(items[0]) < depth
    ensures ParseItems(WriteItems(items, sp) + "]" + rest, acc, depth)
         == ParseItems(WriteItems(items[1..], sp) + "]" + rest, acc + [Normalize(items[0])], depth)
    decreases items, 0
  {
    var xt := Write(items[0], sp);
    var more := WriteItems(items[1..], sp) + "]" + rest;
    ItemsTextSplit(items, sp, rest);
    ParseWrite(items[0], sp, "," + sp + more, depth);
    ItemsNextStep(xt, Normalize(items[0]), sp, more, acc, depth);
  }

  lemma ItemsTextSplit(items: seq<Value>, sp: string, rest: string)
    requires |items| > 1
    ensures WriteItems(items, sp) + "]" + rest
         == Write(items[0], sp) + ("," + sp + (WriteItems(items[1..], sp) + "]" + rest))
  {
    var a, c := Write(items[0], sp), WriteItems(items[1..], sp);
    assert WriteItems(items, sp) == a + "," + sp + c;
    Assoc(a, ",", sp);
    Assoc(a, "," + sp, c);
    Assoc(a, "," + sp + c, "]");
    Assoc("," + sp + c, "]", rest);
    Assoc(a, "," + sp + c + "]", rest);
    Assoc("," + sp, c, "]");
    Assoc("," + sp, c + "]", rest);
    Assoc(c, "]", rest);
  }

  /** A quoted key reads back as the key. */
  lemma QuoteStep(k: string, r1: string)
    ensures |Quote(k) + r1| > 0 && (Quote(k) + r1)[0] == '"'
    ensures ParseString((Quote(k) + r1)[1..]) == Parsed(k, r1)
  {
    var s := Quote(k) + r1;
    assert s == "\"" + (Escape(k) + "\"" + r1);
    assert s[1..] == Escape(k) + "\"" + r1;
    ParseQuoted(k, r1);
  }

  /** One member `"key":`, whitespace and a value, given what the value reads as. */
  lemma MemberStep(k: string, sp: string, vt: string, nv: Value, r: string, depth: nat)
    requires Blank(sp)
    requires ParseValue(vt + r, depth) == Parsed(nv, r)
    ensures ParseMember(Quote(k) + (":" + sp + (vt + r)), depth) == Parsed(Member(k, nv), r)
  {
    var r1 := ":" + sp + (vt + r);
    var s := Quote(k) + r1;
    QuoteStep(k, r1);
    assert !IsWhitespace(s[0]);
    assert SkipWhitespace(s) == s;
    assert r1 == ":" + (sp + (vt + r));
    assert r1[0] == ':' && !IsWhitespace(r1[0]);
    assert SkipWhitespace(r1) == r1;
    assert r1[1..] == sp + (vt + r);
    ParseValueAfterBlank(sp, vt + r, depth);
  }

  lemma MembersTextSplit(ms: seq<Member>, sp: string, rest: string)
    requires |ms| > 1
    ensures WriteMembers(ms, sp) + "}" + rest
         == Quote(ms[0].key) + (":" + sp + (Write(ms[0].value, sp) + ("," + sp + (WriteMembers(ms[1..], sp) + "}" + rest))))
  {
    var a, b, c := Quote(ms[0].key), Write(ms[0].value, sp), WriteMembers(ms[1..], sp);
    var x, y, r := ":" + sp, "," + sp, "}" + rest;
    var w := WriteMembers(ms, sp);
    assert w == a + ":" + sp + b + "," + sp + c;
    Assoc(a, ":", sp);
    Assoc(a, x, b);
    Assoc(a + x + b, ",", sp);
    Assoc(a + x + b, y, c);
    Assoc(a, x + b, y + c);
    Assoc(x, b, y + c);
    assert w == a + (x + (b + (y + c)));
    Assoc(w, "}", rest);
    Assoc(a, x + (b + (y + c)), r);
    Assoc(x, b + (y + c), r);
    Assoc(b, y + c, r);
    Assoc(y, c, r);
    Assoc(c, "}", rest);
  }

  /** The last member of an object, then `}`. */
  lemma MembersLast(k: string, sp: string, vt: string, nv: Value, rest: string, acc: seq<Member>, depth: nat)
    requires Blank(sp)
    requires ParseValue(vt + ("}" + rest), depth) == Parsed(nv, "}" + rest)
    ensures ParseMembers(Quote(k) + (":" + sp + (vt + ("}" + rest))), acc, depth) == Parsed(Object(Insert(acc, k, nv)), rest)
  {
    var r := "}" + rest;
    MemberStep(k, sp, vt, nv, r, depth);
    ParseMembersStep(Quote(k) + (":" + sp + (vt + r)), acc, Member(k, nv), r, depth);
    assert r[1..] == rest;
  }

  /** A member followed by `,`, whitespace and more members. */
  lemma MembersNext(k: string, sp: string, vt: string, nv: Value, more: string, acc: seq<Member>, depth: nat)
    requires Blank(sp)
    requires ParseValue(vt + ("," + sp + more), depth) == Parsed(nv, "," + sp + more)
    ensures ParseMembers(Quote(k) + (":" + sp + (vt + ("," + sp + more))), acc, depth) == ParseMembers(more, Insert(acc, k, nv), depth)
  {
    var r := "," + sp + more;
    MemberStep(k, sp, vt, nv, r, depth);
    ParseMembersStep(Quote(k) + (":" + sp + (vt + r)), acc, Member(k, nv), r, depth);
    assert r[1..] == sp + more;
    ParseMembersAfterBlank(sp, more, Insert(acc, k, nv), depth);
  }

  lemma {:induction false} ParseMembersWrite(ms: seq<Member>, sp: string, rest: string, acc: seq<Member>, depth: nat)
    requires |ms| > 0 && Blank(sp) && MembersDepth(ms) < depth
    ensures ParseMembers(WriteMembers(ms, sp) + "}" + rest, acc, depth)
         == Parsed(Object(InsertAll(acc, NormalizeMembers(ms))), rest)
    decreases ms, 1
  {
    var k, v := ms[0].key, ms[0].value;
    var nv := Normalize(v);
    var acc' := Insert(acc, k, nv);
    var nms := NormalizeMembers(ms);
    assert nms[0] == Member(k, nv) && nms[1..] == NormalizeMembers(ms[1..]);
    assert InsertAll(acc, nms) == InsertAll(acc', NormalizeMembers(ms[1..]));
    if |ms| == 1 {
      ParseLastMemberWrite(ms, sp, rest, acc, depth);
      assert NormalizeMembers(ms[1..]) == [];
    } else {
      ParseNextMemberWrite(ms, sp, rest, acc, depth);
      ParseMembersWrite(ms[1..], sp, rest, acc', depth);
    }
  }

  lemma ParseLastMemberWrite(ms: seq<Member>, sp: string, rest: string, acc: seq<Member>, depth: nat)
    requires |ms| == 1 && Blank(sp) && MembersDepth(ms) < depth
    ensures ParseMembers(WriteMembers(ms, sp) + "}" + rest, acc, depth)
         == Parsed(Object(Insert(acc, ms[0].key, Normalize(ms[0].value))), rest)
    decreases ms, 0
  {
    var k, v := ms[0].key, ms[0].value;
    var vt := Write(v, sp);
    assert WriteMembers(ms, sp) == Quote(k) + ":" + sp + vt;
    assert WriteMembers(ms, sp) + "}" + rest == Quote(k) + (":" + sp + (vt + ("}" + rest)));
    ParseWrite(v, sp, "}" + rest, depth);
    MembersLast(k, sp, vt, Normalize(v), rest, acc, depth);
  }

  lemma ParseNextMemberWrite(ms: seq<Member>, sp: string, rest: string, acc: seq<Member>, depth: nat)
    requires |ms| > 1 && Blank(sp) && Depth(ms[0].value) < depth
    ensures ParseMembers(WriteMembers(ms, sp) + "}" + rest, acc, depth)
         == ParseMembers(WriteMembers(ms[1..], sp) + "}" + rest, Insert(acc, ms[0].key, Normalize(ms[0].value)), depth)
    decreases ms, 0
  {
    var k, v := ms[0].key, ms[0].value;
    var vt := Write(v, sp);
    var more := WriteMembers(ms[1..], sp) + "}" + rest;
    MembersTextSplit(ms, sp, rest);
    ParseWrite(v, sp, "," + sp + more, depth);
    MembersNext(k, sp, vt, Normalize(v), more, acc, depth);
  }

  // ---------------------------------------------------------------------------------------------
  // Where the reader stops
  // ---------------------------------------------------------------------------------------------

  lemma LiteralSuffix(t: string, word: string, v: Value)
    requires |word| > 0
    ensures ParseLiteral(t, word, v).Parsed? ==> IsSuffix(ParseLiteral(t, word, v).rest, t)
  {
  }

  lemma NumberSuffix(t: string)
    requires |t| > 0
    ensures ParseNumber(t).Parsed? ==> IsSuffix(ParseNumber(t).rest, t)
  {
    var u := if t[0] == '-' then t[1..] else t;
    var (ds, after) := SplitDigits(u);
    assert u[|u| - |after|..] == after;
    if t[0] == '-' {
      SuffixTransitive(after, u, t);
    }
  }

  lemma EscapeSuffix(s: string)
    ensures ParseEscape(s).Parsed? ==> IsSuffix(ParseEscape(s).rest, s)
  {
  }

  /** Reading a string leaves the text after its closing quote. */
  lemma {:induction false} StringSuffix(s: string)
    ensures ParseString(s).Parsed? ==> IsSuffix(ParseString(s).rest, s)
    decreases |s|
  {
    if |s| > 0 && s[0] != '"' {
      if s[0] == '\\' {
        EscapeSuffix(s[1..]);
        match ParseEscape(s[1..])
        case Malformed =>
        case Parsed(c, rest) =>
          StringSuffix(rest);
          if ParseString(rest).Parsed? {
            SuffixTransitive(rest, s[1..], s);
            SuffixTransitive(ParseString(rest).rest, rest, s);
          }
      } else if s[0] >= ' ' {
        StringSuffix(s[1..]);
        if ParseString(s[1..]).Parsed? {
          SuffixTransitive(ParseString(s[1..]).rest, s[1..], s);
        }
      }
    }
  }

  /** The reader never invents text: what it leaves is what followed the value it read. */
  lemma {:induction false} ValueSuffix(s: string, depth: nat)
    ensures ParseValue(s, depth).Parsed? ==> IsSuffix(ParseValue(s, depth).rest, s)
    decreases |s|, 0
  {
    var t := SkipWhitespace(s);
    SkipWhitespaceSplits(s);
    assert IsSuffix(t, s);
    if |t| > 0 && ParseValue(s, depth).Parsed? {
      var rest := ParseValue(s, depth).rest;
      if t[0] == 'n' {
        LiteralSuffix(t, "null", Null);
      } else if t[0] == 't' {
        LiteralSuffix(t, "true", Bool(true));
      } else if t[0] == 'f' {
        LiteralSuffix(t, "false", Bool(false));
      } else if t[0] == '-' || IsDigit(t[0]) {
        NumberSuffix(t);
      } else if t[0] == '"' {
        StringSuffix(t[1..]);
        SuffixTransitive(rest, t[1..], t);
      } else if t[0] == '[' {
        ArraySuffix(t[1..], depth - 1);
        SuffixTransitive(rest, t[1..], t);
      } else {
        ObjectSuffix(t[1..], depth - 1);
        SuffixTransitive(rest, t[1..], t);
      }
      SuffixTransitive(rest, t, s);
    }
  }

  lemma {:induction false} ArraySuffix(s: string, depth: nat)
    ensures ParseArray(s, depth).Parsed? ==> IsSuffix(ParseArray(s, depth).rest, s)
    decreases |s|, 2
  {
    var t := SkipWhitespace(s);
    SkipWhitespaceSplits(s);
    if ParseArray(s, depth).Parsed? {
      var rest := ParseArray(s, depth).rest;
      if |t| > 0 && t[0] == ']' {
        SuffixTransitive(rest, t, s);
      } else {
        ItemsSuffix(t, [], depth);
        SuffixTransitive(rest, t, s);
      }
    }
  }

  lemma {:induction false} ItemsSuffix(s: string, acc: seq<Value>, depth: nat)
    ensures ParseItems(s, acc, depth).Parsed? ==> IsSuffix(ParseItems(s, acc, depth).rest, s)
    decreases |s|, 1
  {
    ValueSuffix(s, depth);
    match ParseValue(s, depth)
    case Malformed =>
    case Parsed(v, r) =>
      var t := SkipWhitespace(r);
      SkipWhitespaceSplits(r);
      SuffixTransitive(t, r, s);
      if |t| > 0 && ParseItems(s, acc, depth).Parsed? {
        var rest := ParseItems(s, acc, depth).rest;
        if t[0] == ',' {
          ItemsSuffix(t[1..], acc + [v], depth);
          SuffixTransitive(rest, t[1..], t);
        }
        SuffixTransitive(rest, t, s);
      }
  }

  lemma {:induction false} ObjectSuffix(s: string, depth: nat)
    ensures ParseObject(s, depth).Parsed? ==> IsSuffix(ParseObject(s, depth).rest, s)
    decreases |s|, 2
  {
    var t := SkipWhitespace(s);
    SkipWhitespaceSplits(s);
    if ParseObject(s, depth).Parsed? {
      var rest := ParseObject(s, depth).rest;
      if |t| > 0 && t[0] == '}' {
        SuffixTransitive(rest, t, s);
      } else {
        MembersSuffix(t, [], depth);
        SuffixTransitive(rest, t, s);
      }
    }
  }

  lemma {:induction false} MembersSuffix(s: string, acc: seq<Member>, depth: nat)
    ensures ParseMembers(s, acc, depth).Parsed? ==> IsSuffix(ParseMembers(s, acc, depth).rest, s)
    decreases |s|, 1
  {
    MemberSuffix(s, depth);
    match ParseMember(s, depth)
    case Malformed =>
    case Parsed(m, r) =>
      var t := SkipWhitespace(r);
      SkipWhitespaceSplits(r);
      SuffixTransitive(t, r, s);
      if |t| > 0 && ParseMembers(s, acc, depth).Parsed? {
        var rest := ParseMembers(s, acc, depth).rest;
        if t[0] == ',' {
          MembersSuffix(t[1..], Insert(acc, m.key, m.value), depth);
          SuffixTransitive(rest, t[1..], t);
        }
        SuffixTransitive(rest, t, s);
      }
  }

  lemma {:induction false} MemberSuffix(s: string, depth: nat)
    ensures ParseMember(s, depth).Parsed? ==> IsSuffix(ParseMember(s, depth).rest, s)
    decreases |s|, 0
  {
    var t := SkipWhitespace(s);
    if |t| > 0 && t[0] == '"' {
      match ParseString(t[1..])
      case Parsed(_, r1) =>
        var t1 := SkipWhitespace(r1);
        if |t1| > 0 && t1[0] == ':' {
          match ParseValue(t1[1..], depth)
          case Parsed(_, rest) =>
            SkipWhitespaceSplits(s);
            StringSuffix(t[1..]);
            SkipWhitespaceSplits(r1);
            ValueSuffix(t1[1..], depth);
            MemberChain(rest, t1, r1, t, s);
          case Malformed =>
        }
      case Malformed =>
    }
  }

  /** The suffixes a member is read through, from the whole text down to what follows the value. */
  lemma MemberChain(rest: string, t1: string, r1: string, t: string, s: string)
    requires |t1| > 0 && |t| > 0
    requires IsSuffix(rest, t1[1..]) && IsSuffix(t1, r1) && IsSuffix(r1, t[1..]) && IsSuffix(t, s)
    ensures IsSuffix(rest, s)
  {
    SuffixTransitive(rest, t1[1..], t1);
    SuffixTransitive(rest, t1, r1);
    SuffixTransitive(rest, r1, t[1..]);
    SuffixTransitive(rest, t[1..], t);
    SuffixTransitive(rest, t, s);
  }

  // ---------------------------------------------------------------------------------------------
  // The nesting limit
  // ---------------------------------------------------------------------------------------------

  /** The read fails on written text nested at least as deep as the depth left to spend. */
  lemma {:induction false} DeepWriteMalformed(v: Value, sp: string, rest: string, depth: nat)
    requires Blank(sp) && 0 < depth <= Depth(v)
    ensures ParseValue(Write(v, sp) + rest, depth) == Malformed
    decreases v, 4
  {
    if v.Array? {
      DeepArrayMalformed(v.items, sp, rest, depth);
    } else {
      DeepObjectMalformed(v.members, sp, rest, depth);
    }
  }

  lemma {:induction false} DeepArrayMalformed(items: seq<Value>, sp: string, rest: string, depth: nat)
    requires Blank(sp) && 0 < depth <= Depth(Array(items))
    ensures ParseValue(Write(Array(items), sp) + rest, depth) == Malformed
    decreases items, 3
  {
    if depth <= 1 {
      ShallowText(Array(items), sp, rest, depth);
    } else {
      var inner: nat := depth - 1;
      assert 0 < inner <= ItemsDepth(items);
      OpenBracketText(items, sp, rest, depth);
      var x := WriteItems(items, sp) + "]" + rest;
      WriteStart(items[0], sp);
      assert x[0] == Write(items[0], sp)[0];
      ParseArrayStart(x, inner);
      DeepItemsMalformed(items, sp, rest, [], inner);
    }
  }

  lemma {:induction false} DeepObjectMalformed(ms: seq<Member>, sp: string, rest: string, depth: nat)
    requires Blank(sp) && 0 < depth <= Depth(Object(ms))
    ensures ParseValue(Write(Object(ms), sp) + rest, depth) == Malformed
    decreases ms, 3
  {
    if depth <= 1 {
      ShallowText(Object(ms), sp, rest, depth);
    } else {
      OpenBraceText(ms, sp, rest, depth);
      DeepObjectOpened(ms, sp, rest, depth - 1);
    }
  }

  /** After `{` of written members, one of which is nested too deeply. */
  lemma {:induction false} DeepObjectOpened(ms: seq<Member>, sp: string, rest: string, depth: nat)
    requires Blank(sp) && 0 < depth <= MembersDepth(ms)
    ensures ParseObject(WriteMembers(ms, sp) + "}" + rest, depth) == Malformed
    decreases ms, 2
  {
    MembersTextStart(ms, sp, rest);
    ParseObjectStart(WriteMembers(ms, sp) + "}" + rest, depth);
    DeepMembersMalformed(ms, sp, rest, [], depth);
  }

  /** Written members start with the quote of the first key. */
  lemma MembersTextStart(ms: seq<Member>, sp: string, rest: string)
    requires |ms| > 0
    ensures var x := WriteMembers(ms, sp) + "}" + rest; |x| > 0 && x[0] == '"'
  {
    var q := Quote(ms[0].key);
    assert q[0] == '"';
    if |ms| == 1 {
      assert WriteMembers(ms, sp) == q + ":" + sp + Write(ms[0].value, sp);
    } else {
      MembersTextSplit(ms, sp, rest);
    }
  }

  /** An array or object cannot be opened with no depth left to spend. */
  lemma ShallowText(v: Value, sp: string, rest: string, depth: nat)
    requires (v.Array? || v.Object?) && depth <= 1
    ensures ParseValue(Write(v, sp) + rest, depth) == Malformed
  {
    var s := Write(v, sp) + rest;
    assert s[0] == Write(v, sp)[0];
    if v.Array? {
      ParseValueOpenBracket(s, depth);
    } else {
      ParseValueOpenBrace(s, depth);
    }
  }

  /** Elements are read in order until one nested too deeply makes the read fail. */
  lemma {:induction false} DeepItemsMalformed(items: seq<Value>, sp: string, rest: string, acc: seq<Value>, depth: nat)
    requires Blank(sp) && 0 < depth <= ItemsDepth(items)
    ensures ParseItems(WriteItems(items, sp) + "]" + rest, acc, depth) == Malformed
    decreases items, 1
  {
    if depth <= Depth(items[0]) {
      var after := if |items| == 1 then "]" + rest else "," + sp + (WriteItems(items[1..], sp) + "]" + rest);
      if |items| == 1 {
        assert WriteItems(items, sp) + "]" + rest == Write(items[0], sp) + after;
      } else {
        ItemsTextSplit(items, sp, rest);
      }
      DeepWriteMalformed(items[0], sp, after, depth);
    } else {
      ParseNextItemWrite(items, sp, rest, acc, depth);
      DeepItemsMalformed(items[1..], sp, rest, acc + [Normalize(items[0])], depth);
    }
  }

  /** Members are read in order until one whose value is nested too deeply makes the read fail. */
  lemma {:induction false} DeepMembersMalformed(ms: seq<Member>, sp: string, rest: string, acc: seq<Member>, depth: nat)
    requires Blank(sp) && 0 < depth <= MembersDepth(ms)
    ensures ParseMembers(WriteMembers(ms, sp) + "}" + rest, acc, depth) == Malformed
    decreases ms, 1
  {
    var k, v := ms[0].key, ms[0].value;
    if depth <= Depth(v) {
      DeepFirstMember(ms, sp, rest, acc, depth);
    } else {
      ParseNextMemberWrite(ms, sp, rest, acc, depth);
      DeepMembersMalformed(ms[1..], sp, rest, Insert(acc, k, Normalize(v)), depth);
    }
  }

  lemma {:induction false} DeepFirstMember(ms: seq<Member>, sp: string, rest: string, acc: seq<Member>, depth: nat)
    requires Blank(sp) && |ms| > 0 && 0 < depth <= Depth(ms[0].value)
    ensures ParseMembers(WriteMembers(ms, sp) + "}" + rest, acc, depth) == Malformed
    decreases ms, 0
  {
    var k, v := ms[0].key, ms[0].value;
    if |ms| == 1 {
      var after := "}" + rest;
      LastMemberText(ms, sp, rest);
      DeepWriteMalformed(v, sp, after, depth);
      MemberMalformed(k, sp, Write(v, sp), after, depth);
    } else {
      var after := "," + sp + (WriteMembers(ms[1..], sp) + "}" + rest);
      MembersTextSplit(ms, sp, rest);
      DeepWriteMalformed(v, sp, after, depth);
      MemberMalformed(k, sp, Write(v, sp), after, depth);
    }
  }

  lemma LastMemberText(ms: seq<Member>, sp: string, rest: string)
    requires |ms| == 1
    ensures WriteMembers(ms, sp) + "}" + rest == Quote(ms[0].key) + (":" + sp + (Write(ms[0].value, sp) + ("}" + rest)))
  {
    var a, b := Quote(ms[0].key), Write(ms[0].value, sp);
    var x, r := ":" + sp, "}" + rest;
    var w := WriteMembers(ms, sp);
    assert w == a + ":" + sp + b;
    Assoc(a, ":", sp);
    Assoc(a, x, b);
    Assoc(w, "}", rest);
    Assoc(a, x + b, r);
    Assoc(x, b, r);
  }

  /** A member whose value cannot be read cannot be read either. */
  lemma MemberMalformed(k: string, sp: string, vt: string, r: string, depth: nat)
    requires Blank(sp)
    requires ParseValue(vt + r, depth) == Malformed
    ensures ParseMember(Quote(k) + (":" + sp + (vt + r)), depth) == Malformed
  {
    var r1 := ":" + sp + (vt + r);
    var s := Quote(k) + r1;
    QuoteStep(k, r1);
    assert SkipWhitespace(s) == s;
    assert r1[0] == ':' && SkipWhitespace(r1) == r1;
    assert r1[1..] == sp + (vt + r);
    ParseValueAfterBlank(sp, vt + r, depth);
  }

  /** Round trip: the compact text of a well-formed value nested less deeply than serde_json's
      limit reads back as that value, and the reader stops exactly at the end of the text. */
  lemma SerializeRoundTrip(v: Value, rest: string)
    requires WellFormed(v) && Depth(v) < RECURSION_LIMIT && EndsValue(rest)
    ensures ParseValue(Serialize(v) + rest, RECURSION_LIMIT) == Parsed(v, rest)
    ensures FromStr(Serialize(v)) == Some(v)
  {
    NormalizeWellFormed(v);
    ParseWrite(v, "", rest, RECURSION_LIMIT);
    ParseWrite(v, "", "", RECURSION_LIMIT);
    assert Serialize(v) + "" == Serialize(v);
  }

  /** Text written with the same whitespace after every `,` and `:`, members in any order and
      nested less deeply than the limit reads back as the value serde_json builds from it. */
  lemma WrittenTextParses(v: Value, sp: string)
    requires Blank(sp) && Depth(v) < RECURSION_LIMIT
    ensures FromStr(Write(v, sp)) == Some(Normalize(v))
  {
    ParseWrite(v, sp, "", RECURSION_LIMIT);
    assert Write(v, sp) + "" == Write(v, sp);
  }

  /** `from_str` accepts written text exactly when it nests less deeply than the limit: 127
      levels of arrays and objects are read, 128 are refused. */
  lemma NestingLimit(v: Value, sp: string)
    requires Blank(sp)
    ensures FromStr(Write(v, sp)).Some? <==> Depth(v) < RECURSION_LIMIT
  {
    if Depth(v) < RECURSION_LIMIT {
      WrittenTextParses(v, sp);
    } else {
      DeepWriteMalformed(v, sp, "", RECURSION_LIMIT);
      assert Write(v, sp) + "" == Write(v, sp);
    }
  }
}
