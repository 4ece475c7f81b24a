/** The line-command protocol of `command_parser.rs`: a JSON object whose discriminator key names
    the command, `find` with a `path`, or `resize` with a `source` and a list of
    `[target, width, height]` triples. Everything else is a wrong command. */
module CommandParser {
  import opened Results
  import opened Json
  import opened JsonText
  import opened JsonRoundTrip
  import opened Machine

  datatype ImageSize = ImageSize(target: string, width: u32, height: u32)

  datatype Command =
    | FindImage(path: string)
    | ResizeImage(source: string, sizes: seq<ImageSize>)
    | WrongCommand

  /** The discriminator key `parse_json_string` reads. */
  const TYPE_KEY: string := "type"

  // ---------------------------------------------------------------------------------------------
  // One size triple
  // ---------------------------------------------------------------------------------------------

  predicate IsSizeTuple(target: Value, width: Value, height: Value)
  {
    target.String? && width.Number? && height.Number?
  }

  /** An array of exactly three values of the shape `IsSizeTuple` accepts. */
  predicate IsSizeItem(size: Value)
  {
    size.Array? && |size.items| == 3 && IsSizeTuple(size.items[0], size.items[1], size.items[2])
  }

  /** `as_u64()` yields a value. */
  predicate FitsU64(v: Value)
  {
    v.Number? && 0 <= v.n <= U64_MAX
  }

  /** The item does not make `parse_size_item` panic: a size triple carries its width and height
      as unsigned 64-bit integers. */
  predicate SizeItemSafe(size: Value)
  {
    IsSizeItem(size) ==> FitsU64(size.items[1]) && FitsU64(size.items[2])
  }

  /** `parse_size_item`: a size triple becomes a size, with width and height cut to their low
      32 bits; anything else is skipped. */
  function ParseSizeItem(size: Value): (r: Option<ImageSize>)
    requires SizeItemSafe(size)
    ensures r.Some? <==> IsSizeItem(size)
    ensures r.Some? ==> r.value.target == size.items[0].s
    ensures r.Some? ==> (r.value.width - size.items[1].n) % U32_MODULUS == 0
    ensures r.Some? ==> (r.value.height - size.items[2].n) % U32_MODULUS == 0
    ensures r.Some? && size.items[1].n < U32_MODULUS ==> r.value.width == size.items[1].n
    ensures r.Some? && size.items[2].n < U32_MODULUS ==> r.value.height == size.items[2].n
  {
    if IsSizeItem(size) then
      Some(ImageSize(size.items[0].s, TruncateU32(size.items[1].n), TruncateU32(size.items[2].n)))
    else
      None
  }

  // ---------------------------------------------------------------------------------------------
  // The size list
  // ---------------------------------------------------------------------------------------------

  predicate ItemsSafe(list: seq<Value>)
  {
    forall i | 0 <= i < |list| :: SizeItemSafe(list[i])
  }

  /** `filter_map(parse_size_item)` over the items of the `sizes` array. */
  function SizeItems(list: seq<Value>): (r: seq<ImageSize>)
    requires ItemsSafe(list)
    ensures |r| <= |list|
  {
    if |list| == 0 then []
    else
      var rest := SizeItems(list[1..]);
      match ParseSizeItem(list[0])
      case Some(size) => [size] + rest
      case None => rest
  }

  /** The positions, shifted by `base`, of the items `SizeItems` keeps. */
  function SizeIndices(list: seq<Value>, base: nat): seq<nat>
  {
    if |list| == 0 then []
    else if IsSizeItem(list[0]) then [base] + SizeIndices(list[1..], base + 1)
    else SizeIndices(list[1..], base + 1)
  }

  predicate SizesSafe(json: Value)
  {
    Index(json, "sizes").Array? ==> ItemsSafe(Index(json, "sizes").items)
  }

  /** `collect_image_sizes_from_json`: the sizes of the `sizes` array, or none when there is no
      such array. */
  function CollectImageSizes(json: Value): (r: seq<ImageSize>)
    requires SizesSafe(json)
    ensures !Index(json, "sizes").Array? ==> r == []
    ensures Index(json, "sizes").Array? ==> r == SizeItems(Index(json, "sizes").items)
    ensures Index(json, "sizes").Array? ==> |r| <= |Index(json, "sizes").items|
  {
    match Index(json, "sizes")
    case Array(list) => SizeItems(list)
    case _ => []
  }

  // ---------------------------------------------------------------------------------------------
  // Commands
  // ---------------------------------------------------------------------------------------------

  /** The value does not make `create_command_from_parsed_json_value` panic: a `resize` command
      carries a string `source` and well-typed size triples. */
  predicate CommandSafe(key: string, json: Value)
  {
    Index(json, key) == String("resize") ==> Index(json, "source").String? && SizesSafe(json)
  }

  /** `create_command_from_parsed_json_value`, with the discriminator key as a parameter. */
  function CreateCommand(key: string, json: Value): (c: Command)
    requires CommandSafe(key, json)
    ensures c.FindImage? <==> Index(json, key) == String("find") && Index(json, "path").String?
    ensures c.FindImage? ==> c.path == Index(json, "path").s
    ensures c.ResizeImage? <==> Index(json, key) == String("resize")
    ensures c.ResizeImage? ==> c.source == Index(json, "source").s && c.sizes == CollectImageSizes(json)
  {
    match Index(json, key)
    case String(name) =>
      if name == "find" then
        match Index(json, "path")
        case String(path) => FindImage(path)
        case _ => WrongCommand
      else if name == "resize" then
        ResizeImage(Index(json, "source").s, CollectImageSizes(json))
      else
        WrongCommand
    case _ => WrongCommand
  }

  /** Text that does not make the parser panic: either it is not a JSON document, or the
      document is a safe command. */
  predicate TextSafe(key: string, text: string)
  {
    FromStr(text).Some? ==> CommandSafe(key, FromStr(text).value)
  }

  /** Reads a command from one JSON document: text that is not a JSON document is a wrong
      command. */
  function ParseCommandText(key: string, text: string): (c: Command)
    requires TextSafe(key, text)
    ensures FromStr(text).None? ==> c == WrongCommand
    ensures FromStr(text).Some? ==> c == CreateCommand(key, FromStr(text).value)
    ensures !c.WrongCommand? ==> FromStr(text).Some? && Index(FromStr(text).value, key).String?
  {
    match FromStr(text)
    case Some(json) => CreateCommand(key, json)
    case None => WrongCommand
  }

  /** `parse_json_string`. */
  function ParseJsonString(text: string): (c: Command)
    requires TextSafe(TYPE_KEY, text)
    ensures FromStr(text).None? ==> c == WrongCommand
    ensures FromStr(text).Some? ==> c == CreateCommand(TYPE_KEY, FromStr(text).value)
    ensures c.FindImage? ==> FromStr(text).Some? && Index(FromStr(text).value, "type") == String("find")
    ensures c.ResizeImage? ==> FromStr(text).Some? && Index(FromStr(text).value, "type") == String("resize")
  {
    ParseCommandText(TYPE_KEY, text)
  }

  // ---------------------------------------------------------------------------------------------
  // Properties of the size list
  // ---------------------------------------------------------------------------------------------

  /** Filtering distributes over concatenation: items are judged one at a time. */
  lemma {:induction false} SizeItemsAppend(a: seq<Value>, b: seq<Value>)
    requires ItemsSafe(a) && ItemsSafe(b)
    ensures ItemsSafe(a + b)
    ensures SizeItems(a + b) == SizeItems(a) + SizeItems(b)
  {
    assert forall i | 0 <= i < |a + b| :: (a + b)[i] == if i < |a| then a[i] else b[i - |a|];
    if |a| > 0 {
      assert (a + b)[1..] == a[1..] + b;
      assert ItemsSafe(a[1..]);
      SizeItemsAppend(a[1..], b);
    } else {
      assert a + b == b;
    }
  }

  /** The k-th index points, shifted by `base`, at the item of `list` the k-th size is read
      from. */
  predicate ReadsSizes(list: seq<Value>, base: nat, idx: seq<nat>, sizes: seq<ImageSize>)
    requires ItemsSafe(list)
  {
    && |idx| == |sizes|
    && forall k | 0 <= k < |idx| ::
      base <= idx[k] < base + |list| && ParseSizeItem(list[idx[k] - base]) == Some(sizes[k])
  }

  /** What the indices of the list's tail say about the tail holds of the whole list, and the
      first item, when it is kept, comes first. */
  lemma ReadsShift(list: seq<Value>, base: nat, it: seq<nat>, rest: seq<ImageSize>)
    requires |list| > 0 && ItemsSafe(list) && ItemsSafe(list[1..])
    requires ReadsSizes(list[1..], base + 1, it, rest)
    ensures ReadsSizes(list, base, it, rest)
    ensures IsSizeItem(list[0]) ==> ReadsSizes(list, base, [base] + it, [ParseSizeItem(list[0]).value] + rest)
  {
    forall k | 0 <= k < |it|
      ensures base <= it[k] < base + |list| && ParseSizeItem(list[it[k] - base]) == Some(rest[k])
    {
      assert list[it[k] - base] == list[1..][it[k] - (base + 1)];
    }
    if IsSizeItem(list[0]) {
      var idx, sizes := [base] + it, [ParseSizeItem(list[0]).value] + rest;
      forall k | 0 <= k < |idx|
        ensures base <= idx[k] < base + |list| && ParseSizeItem(list[idx[k] - base]) == Some(sizes[k])
      {
        if k > 0 {
          assert idx[k] == it[k - 1] && sizes[k] == rest[k - 1];
        }
      }
    }
  }

  /** One index per kept item, pointing at the item that size is read from. */
  lemma {:induction false} SizeIndicesSource(list: seq<Value>, base: nat)
    requires ItemsSafe(list)
    ensures ReadsSizes(list, base, SizeIndices(list, base), SizeItems(list))
  {
    if |list| > 0 {
      var tail := list[1..];
      assert ItemsSafe(tail);
      SizeIndicesSource(tail, base + 1);
      ReadsShift(list, base, SizeIndices(tail, base + 1), SizeItems(tail));
      if IsSizeItem(list[0]) {
        assert SizeIndices(list, base) == [base] + SizeIndices(tail, base + 1);
        assert SizeItems(list) == [ParseSizeItem(list[0]).value] + SizeItems(tail);
      } else {
        assert SizeIndices(list, base) == SizeIndices(tail, base + 1);
        assert SizeItems(list) == SizeItems(tail);
      }
    }
  }

  /** The indices increase strictly. */
  lemma {:induction false} SizeIndicesIncrease(list: seq<Value>, base: nat)
    ensures forall k | 0 <= k < |SizeIndices(list, base)| :: base <= SizeIndices(list, base)[k]
    ensures forall k, l | 0 <= k < l < |SizeIndices(list, base)| :: SizeIndices(list, base)[k] < SizeIndices(list, base)[l]
  {
    if |list| > 0 {
      SizeIndicesIncrease(list[1..], base + 1);
    }
  }

  /** Every size triple of the list is kept. */
  lemma {:induction false} SizeIndicesComplete(list: seq<Value>, base: nat)
    ensures forall i | 0 <= i < |list| && IsSizeItem(list[i]) :: base + i in SizeIndices(list, base)
  {
    if |list| > 0 {
      var tail := list[1..];
      SizeIndicesComplete(tail, base + 1);
      forall i | 0 < i < |list| && IsSizeItem(list[i]) ensures base + i in SizeIndices(list, base) {
        assert tail[i - 1] == list[i];
      }
    }
  }

  /** `SizeItems` keeps exactly the size triples, in their original order: the k-th size comes
      from the k-th triple of the list, and every triple contributes one. */
  lemma SizeItemsSelects(list: seq<Value>)
    requires ItemsSafe(list)
    ensures var r, idx := SizeItems(list), SizeIndices(list, 0);
      && |idx| == |r|
      && (forall k | 0 <= k < |idx| :: idx[k] < |list| && IsSizeItem(list[idx[k]]))
      && (forall k | 0 <= k < |idx| :: Some(r[k]) == ParseSizeItem(list[idx[k]]))
      && (forall k, l | 0 <= k < l < |idx| :: idx[k] < idx[l])
      && (forall i | 0 <= i < |list| && IsSizeItem(list[i]) :: i in idx)
  {
    var r, idx := SizeItems(list), SizeIndices(list, 0);
    SizeIndicesSource(list, 0);
    forall k | 0 <= k < |idx| ensures idx[k] < |list| && IsSizeItem(list[idx[k]]) {
      assert ParseSizeItem(list[idx[k] - 0]) == Some(r[k]);
    }
    SizeIndicesIncrease(list, 0);
    SizeIndicesComplete(list, 0);
  }

  // ---------------------------------------------------------------------------------------------
  // The inverse: the JSON a client sends for a command
  // ---------------------------------------------------------------------------------------------

  /** The triple a size is sent as. */
  function SizeValue(size: ImageSize): (v: Value)
    ensures IsSizeItem(v) && SizeItemSafe(v) && WellFormed(v)
    ensures ParseSizeItem(v) == Some(size)
  {
    Array([String(size.target), Number(size.width), Number(size.height)])
  }

  function SizeValues(sizes: seq<ImageSize>): (r: seq<Value>)
    ensures |r| == |sizes|
    ensures forall i | 0 <= i < |sizes| :: r[i] == SizeValue(sizes[i])
  {
    if |sizes| == 0 then [] else [SizeValue(sizes[0])] + SizeValues(sizes[1..])
  }

  /** Reading back the triples of a size list yields that list. */
  lemma {:induction false} SizeValuesRoundTrip(sizes: seq<ImageSize>)
    ensures ItemsSafe(SizeValues(sizes))
    ensures SizeItems(SizeValues(sizes)) == sizes
  {
    if |sizes| > 0 {
      var vs := SizeValues(sizes);
      assert vs[1..] == SizeValues(sizes[1..]);
      SizeValuesRoundTrip(sizes[1..]);
      assert sizes == [sizes[0]] + sizes[1..];
    }
  }

  /** The keys a command object uses besides its discriminator. */
  predicate FieldKey(k: string)
  {
    k == "path" || k == "source" || k == "sizes"
  }

  /** A JSON object that describes `c`, keyed by `key`; a wrong command is the empty object. */
  function CommandJson(key: string, c: Command): (json: Value)
    requires !FieldKey(key)
    ensures WellFormed(json)
  {
    match c
    case FindImage(path) =>
      var m := Insert([], key, String("find"));
      InsertWellFormed([], key, String("find"));
      InsertWellFormed(m, "path", String(path));
      Object(Insert(m, "path", String(path)))
    case ResizeImage(source, sizes) =>
      var m1 := Insert([], key, String("resize"));
      var m2 := Insert(m1, "source", String(source));
      var list := Array(SizeValues(sizes));
      InsertWellFormed([], key, String("resize"));
      InsertWellFormed(m1, "source", String(source));
      assert WellFormed(list);
      InsertWellFormed(m2, "sizes", list);
      Object(Insert(m2, "sizes", list))
    case WrongCommand => Object([])
  }

  /** A command object nests three levels deep at most: the object, its size list and each
      size triple. */
  lemma CommandJsonDepth(key: string, c: Command)
    requires !FieldKey(key)
    ensures Depth(CommandJson(key, c)) <= 3
  {
    match c
    case FindImage(path) =>
      InsertDepth([], key, String("find"), 0);
      InsertDepth(Insert([], key, String("find")), "path", String(path), 0);
    case ResizeImage(source, sizes) =>
      var list := SizeValues(sizes);
      SizeListDepth(sizes);
      var m1 := Insert([], key, String("resize"));
      var m2 := Insert(m1, "source", String(source));
      InsertDepth([], key, String("resize"), 2);
      InsertDepth(m1, "source", String(source), 2);
      InsertDepth(m2, "sizes", Array(list), 2);
    case WrongCommand =>
  }

  /** A size list nests two levels deep at most: the list and each triple. */
  lemma SizeListDepth(sizes: seq<ImageSize>)
    ensures Depth(Array(SizeValues(sizes))) <= 2
  {
    var list := SizeValues(sizes);
    forall i | 0 <= i < |list| ensures Depth(list[i]) <= 1 {
      ItemsDepthBound(list[i].items, 0);
    }
    ItemsDepthBound(list, 1);
  }

  /** Reading the JSON of a command gives that command back. */
  lemma CommandJsonRoundTrip(key: string, c: Command)
    requires !FieldKey(key)
    ensures CommandSafe(key, CommandJson(key, c))
    ensures CreateCommand(key, CommandJson(key, c)) == c
  {
    if c.ResizeImage? {
      SizeValuesRoundTrip(c.sizes);
    }
  }

  /** Reading the serialized JSON of a command gives that command back. */
  lemma CommandTextRoundTrip(key: string, c: Command)
    requires !FieldKey(key)
    ensures TextSafe(key, Serialize(CommandJson(key, c)))
    ensures ParseCommandText(key, Serialize(CommandJson(key, c))) == c
  {
    CommandJsonDepth(key, c);
    SerializeRoundTrip(CommandJson(key, c), "");
    CommandJsonRoundTrip(key, c);
  }

  // ---------------------------------------------------------------------------------------------
  // The documented request forms
  // ---------------------------------------------------------------------------------------------

  /** A request nested less deeply than the limit, written with the same blank after every `,`
      and `:` and its members in any order, is read as the command of the object serde_json
      builds from it. */
  lemma WrittenCommand(key: string, v: Value, sp: string)
    requires Blank(sp) && Depth(v) < RECURSION_LIMIT && CommandSafe(key, Normalize(v))
    ensures TextSafe(key, Write(v, sp))
    ensures ParseCommandText(key, Write(v, sp)) == CreateCommand(key, Normalize(v))
  {
    WrittenTextParses(v, sp);
  }

  /** `{"type":"find","path":"/path/to/file"}`, with the same blank after every `,` and `:`, is a
      find command. */
  lemma FindRequest(v: Value, sp: string)
    requires v == Object([Member("type", String("find")), Member("path", String("/path/to/file"))])
    requires Blank(sp)
    ensures TextSafe(TYPE_KEY, Write(v, sp))
    ensures ParseJsonString(Write(v, sp)) == FindImage("/path/to/file")
  {
    var n := Object([Member("path", String("/path/to/file")), Member("type", String("find"))]);
    assert KeyLess("path", "type");
    assert Normalize(v) == n;
    assert Lookup(n.members, "type") == Some(String("find"));
    WrittenCommand(TYPE_KEY, v, sp);
  }

  /** `{"type": "find"}` without a path is a wrong command. */
  lemma FindWithoutPathRequest(v: Value, sp: string)
    requires v == Object([Member("type", String("find"))])
    requires Blank(sp)
    ensures TextSafe(TYPE_KEY, Write(v, sp))
    ensures ParseJsonString(Write(v, sp)) == WrongCommand
  {
    assert Normalize(v) == v;
    WrittenCommand(TYPE_KEY, v, sp);
  }

  /** `{"type":"something"}` is a wrong command. */
  lemma UnknownTypeRequest(v: Value, sp: string)
    requires v == Object([Member("type", String("something"))])
    requires Blank(sp)
    ensures TextSafe(TYPE_KEY, Write(v, sp))
    ensures ParseJsonString(Write(v, sp)) == WrongCommand
  {
    assert Normalize(v) == v;
    WrittenCommand(TYPE_KEY, v, sp);
  }

  /** `{}` has no type and is a wrong command. */
  lemma EmptyRequest(v: Value, sp: string)
    requires v == Object([])
    requires Blank(sp)
    ensures TextSafe(TYPE_KEY, Write(v, sp))
    ensures ParseJsonString(Write(v, sp)) == WrongCommand
  {
    WrittenCommand(TYPE_KEY, v, sp);
  }

  /** Text that is not JSON is a wrong command. */
  lemma MalformedRequest()
    ensures ParseJsonString("{daasdas}") == WrongCommand
  {
    UnquotedKey("{daasdas}", RECURSION_LIMIT);
  }

  /** An object whose three members are written in descending key order is read with them
      reversed, when their values are already as serde_json builds them. */
  lemma NormalizeReversed(m1: Member, m2: Member, m3: Member)
    requires KeyLess(m3.key, m2.key) && KeyLess(m2.key, m1.key)
    requires Normalize(m1.value) == m1.value && Normalize(m2.value) == m2.value && Normalize(m3.value) == m3.value
    ensures Normalize(Object([m1, m2, m3])) == Object([m3, m2, m1])
  {
    var ms := [m1, m2, m3];
    assert ms[1..] == [m2, m3] && ms[1..][1..] == [m3];
    assert NormalizeMembers([m3]) == [m3];
    assert NormalizeMembers([m2, m3]) == [m2] + NormalizeMembers([m3]);
    assert NormalizeMembers(ms) == [m1] + NormalizeMembers([m2, m3]);
    KeyLessIrreflexive(m2.key);
    KeyLessIrreflexive(m3.key);
    assert Insert([], m1.key, m1.value) == [m1];
    assert Insert([m1], m2.key, m2.value) == [m2, m1];
    assert Insert([m2, m1], m3.key, m3.value) == [m3, m2, m1];
    assert InsertAll([], ms) == InsertAll([m1], [m2, m3]);
    assert InsertAll([m1], [m2, m3]) == InsertAll([m2, m1], [m3]);
    assert InsertAll([m2, m1], [m3]) == InsertAll([m3, m2, m1], []);
    assert NormalizeMembers(ms) == ms;
    assert Normalize(Object(ms)) == Object(InsertAll([], ms));
  }

  /** A resize request written as `type`, `source`, `sizes`, with the same blank after every `,`
      and `:`, is the resize of its source to the size triples of its list. */
  lemma WrittenResize(v: Value, source: string, sizes: Value, sp: string)
    requires v == Object([Member("type", String("resize")), Member("source", String(source)), Member("sizes", sizes)])
    requires sizes.Array? && ItemsSafe(sizes.items) && Normalize(sizes) == sizes
    requires Depth(sizes) < RECURSION_LIMIT - 1 && Blank(sp)
    ensures TextSafe(TYPE_KEY, Write(v, sp))
    ensures ParseJsonString(Write(v, sp)) == ResizeImage(source, SizeItems(sizes.items))
  {
    var ms := [Member("sizes", sizes), Member("source", String(source)), Member("type", String("resize"))];
    var n := Object(ms);
    assert KeyLess("sizes", "source") && KeyLess("source", "type");
    NormalizeReversed(v.members[0], v.members[1], v.members[2]);
    assert Normalize(v) == n;
    assert "sizes" != "source" && "sizes" != "type" && "source" != "type";
    assert Lookup(ms[2..], "type") == Some(String("resize"));
    assert Lookup(ms[1..], "type") == Some(String("resize"));
    assert Index(n, "type") == String("resize");
    assert Lookup(ms[1..], "source") == Some(String(source));
    assert Index(n, "source") == String(source);
    assert Index(n, "sizes") == sizes;
    assert CommandSafe(TYPE_KEY, n);
    MembersDepthBound(v.members, Depth(sizes));
    WrittenCommand(TYPE_KEY, v, sp);
  }

  /** A size triple whose numbers fit in 32 bits is read as those numbers. */
  lemma SmallSizeItem(size: Value)
    requires IsSizeItem(size) && 0 <= size.items[1].n < U32_MODULUS && 0 <= size.items[2].n < U32_MODULUS
    ensures SizeItemSafe(size)
    ensures ParseSizeItem(size) == Some(ImageSize(size.items[0].s, size.items[1].n, size.items[2].n))
  {
  }

  /** A list of a triple, a non-triple and a triple keeps the two triples. */
  lemma SizeItemsSkipMiddle(a: Value, b: Value, c: Value)
    requires IsSizeItem(a) && 0 <= a.items[1].n < U32_MODULUS && 0 <= a.items[2].n < U32_MODULUS
    requires IsSizeItem(c) && 0 <= c.items[1].n < U32_MODULUS && 0 <= c.items[2].n < U32_MODULUS
    requires !IsSizeItem(b)
    ensures ItemsSafe([a, b, c])
    ensures SizeItems([a, b, c]) == [
      ImageSize(a.items[0].s, a.items[1].n, a.items[2].n), ImageSize(c.items[0].s, c.items[1].n, c.items[2].n)]
  {
    SmallSizeItem(a);
    SmallSizeItem(c);
    var list := [a, b, c];
    assert list[1..] == [b, c] && list[1..][1..] == [c] && [c][1..] == [];
    assert SizeItems([c]) == [ImageSize(c.items[0].s, c.items[1].n, c.items[2].n)];
    assert SizeItems([b, c]) == SizeItems([c]);
  }

  lemma ExampleSizesNormal(sizes: Value, a: Value, b: Value, c: Value)
    requires a.Array? && |a.items| == 3 && a.items[0].String? && a.items[1].Number? && a.items[2].Number?
    requires b.Array? && |b.items| == 2 && b.items[0].String? && b.items[1].Number?
    requires c.Array? && |c.items| == 3 && c.items[0].String? && c.items[1].Number? && c.items[2].Number?
    requires sizes == Array([a, b, c])
    ensures Normalize(sizes) == sizes
  {
    assert WellFormed(a) && WellFormed(b) && WellFormed(c);
    NormalizeWellFormed(sizes);
  }

  /** A list of three arrays of scalars nests two deep. */
  lemma ThreeArraysDepth(sizes: Value, a: Value, b: Value, c: Value)
    requires a.Array? && forall i | 0 <= i < |a.items| :: a.items[i].String? || a.items[i].Number?
    requires b.Array? && forall i | 0 <= i < |b.items| :: b.items[i].String? || b.items[i].Number?
    requires c.Array? && forall i | 0 <= i < |c.items| :: c.items[i].String? || c.items[i].Number?
    requires sizes == Array([a, b, c])
    ensures Depth(sizes) == 2
  {
    ItemsDepthBound(a.items, 0);
    ItemsDepthBound(b.items, 0);
    ItemsDepthBound(c.items, 0);
    ItemsDepthBound(sizes.items, 1);
  }

  /** The size list of the resize example: already as serde_json builds it, safe, and read as its
      first and third triples. */
  lemma ExampleSizes(sizes: Value, a: Value, b: Value, c: Value)
    requires a == Array([String("path/to/320x400/image.jpg"), Number(320), Number(400)])
    requires b == Array([String("path/to/320x400/image.jpg"), Number(320)])
    requires c == Array([String("path/to/400x500/image.jpg"), Number(400), Number(500)])
    requires sizes == Array([a, b, c])
    ensures Normalize(sizes) == sizes && ItemsSafe(sizes.items) && Depth(sizes) <= 2
    ensures SizeItems(sizes.items) == [
      ImageSize("path/to/320x400/image.jpg", 320, 400),
      ImageSize("path/to/400x500/image.jpg", 400, 500)]
  {
    ExampleSizesNormal(sizes, a, b, c);
    ThreeArraysDepth(sizes, a, b, c);
    SizeItemsSkipMiddle(a, b, c);
  }

  /** A resize request with one size triple is the resize of its source to that size. */
  lemma OneSizeResizeRequest(v: Value, a: Value, sp: string)
    requires a == Array([String("path/to/320x400/image.jpg"), Number(320), Number(400)])
    requires v == Object([
      Member("type", String("resize")),
      Member("source", String("path/to/image.jpg")),
      Member("sizes", Array([a]))])
    requires Blank(sp)
    ensures TextSafe(TYPE_KEY, Write(v, sp))
    ensures ParseJsonString(Write(v, sp)) == ResizeImage("path/to/image.jpg", [ImageSize("path/to/320x400/image.jpg", 320, 400)])
  {
    var sizes := Array([a]);
    NormalizeWellFormed(sizes);
    SmallSizeItem(a);
    assert SizeItems(sizes.items) == [ImageSize("path/to/320x400/image.jpg", 320, 400)];
    ItemsDepthBound(a.items, 0);
    ItemsDepthBound(sizes.items, 1);
    WrittenResize(v, "path/to/image.jpg", sizes, sp);
  }

  /** A resize request keeps its well-formed size triples, in order, and skips the one with two
      entries. */
  lemma ResizeRequest(v: Value, sizes: Value, sp: string)
    requires sizes == Array([
      Array([String("path/to/320x400/image.jpg"), Number(320), Number(400)]),
      Array([String("path/to/320x400/image.jpg"), Number(320)]),
      Array([String("path/to/400x500/image.jpg"), Number(400), Number(500)])])
    requires v == Object([
      Member("type", String("resize")),
      Member("source", String("path/to/image.jpg")),
      Member("sizes", sizes)])
    requires Blank(sp)
    ensures TextSafe(TYPE_KEY, Write(v, sp))
    ensures ParseJsonString(Write(v, sp)) == ResizeImage("path/to/image.jpg", [
      ImageSize("path/to/320x400/image.jpg", 320, 400),
      ImageSize("path/to/400x500/image.jpg", 400, 500)])
  {
    ExampleSizes(sizes, sizes.items[0], sizes.items[1], sizes.items[2]);
    WrittenResize(v, "path/to/image.jpg", sizes, sp);
  }

  /** A resize request with an empty size list has no sizes. */
  lemma EmptyResizeRequest(v: Value, sp: string)
    requires v == Object([
      Member("type", String("resize")),
      Member("source", String("path/to/image.jpg")),
      Member("sizes", Array([]))])
    requires Blank(sp)
    ensures TextSafe(TYPE_KEY, Write(v, sp))
    ensures ParseJsonString(Write(v, sp)) == ResizeImage("path/to/image.jpg", [])
  {
    assert Normalize(Array([])) == Array([]);
    WrittenResize(v, "path/to/image.jpg", Array([]), sp);
  }
}
