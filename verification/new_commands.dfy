/** The trait-based command redesign of `new_commands.rs`: three command kinds, each able to
    merge with another command of its kind and to name the key under which equal work is grouped,
    and a factory that reads the `command` key of a JSON request. */
module NewCommands {
  import opened Results
  import opened Json
  import opened JsonText
  import opened Machine
  import CommandParser
  import JsonRoundTrip

  datatype WrongCommand = WrongCommand(reason: string)

  datatype FindImageCommand = FindImageCommand(path: string)

  /** A resize target: the file to write, with its width and height. */
  datatype ImageTarget = ImageTarget(name: string, width: u32, height: u32)

  datatype ResizeImageCommand = ResizeImageCommand(path: string, targets: seq<ImageTarget>)

  /** A value of one of the types implementing the `Command` trait. */
  datatype AnyCommand =
    | Wrong(wrong: WrongCommand)
    | Find(find: FindImageCommand)
    | Resize(resize: ResizeImageCommand)

  /** The discriminator key the factory reads. */
  const COMMAND_KEY: string := "command"

  const WRONG_PREFIX: string := "WrongCommand::"
  const FIND_PREFIX: string := "FindImageCommand::"
  const RESIZE_PREFIX: string := "ResizeImageCommand::"

  // ---------------------------------------------------------------------------------------------
  // merge_with
  // ---------------------------------------------------------------------------------------------

  /** A wrong command absorbs the other one: its own reason is kept. */
  function WrongMergeWith(self: WrongCommand, other: WrongCommand): (r: WrongCommand)
    ensures r.reason == self.reason
  {
    self
  }

  /** A find command absorbs the other one: the other path is dropped. */
  function FindMergeWith(self: FindImageCommand, other: FindImageCommand): (r: FindImageCommand)
    ensures r.path == self.path
  {
    self
  }

  /** A resize command keeps its source path and takes the other command's targets after its
      own. */
  function ResizeMergeWith(self: ResizeImageCommand, other: ResizeImageCommand): (r: ResizeImageCommand)
    ensures r.path == self.path
    ensures |r.targets| == |self.targets| + |other.targets|
    ensures r.targets[..|self.targets|] == self.targets
    ensures r.targets[|self.targets|..] == other.targets
  {
    ResizeImageCommand(self.path, self.targets + other.targets)
  }

  predicate SameKind(a: AnyCommand, b: AnyCommand)
  {
    (a.Wrong? && b.Wrong?) || (a.Find? && b.Find?) || (a.Resize? && b.Resize?)
  }

  /** `merge_with`, which the trait only offers between two commands of the same type. */
  function MergeWith(a: AnyCommand, b: AnyCommand): (r: AnyCommand)
    requires SameKind(a, b)
    ensures SameKind(r, a)
  {
    match a
    case Wrong(w) => Wrong(WrongMergeWith(w, b.wrong))
    case Find(f) => Find(FindMergeWith(f, b.find))
    case Resize(c) => Resize(ResizeMergeWith(c, b.resize))
  }

  // ---------------------------------------------------------------------------------------------
  // hash_key
  // ---------------------------------------------------------------------------------------------

  /** The field that identifies a command within its kind. */
  function Identity(c: AnyCommand): string
  {
    match c
    case Wrong(w) => w.reason
    case Find(f) => f.path
    case Resize(r) => r.path
  }

  function Prefix(c: AnyCommand): string
  {
    match c
    case Wrong(_) => WRONG_PREFIX
    case Find(_) => FIND_PREFIX
    case Resize(_) => RESIZE_PREFIX
  }

  /** `hash_key`: the kind's name, `::`, then the identifying field. */
  function HashKey(c: AnyCommand): (r: string)
    ensures |r| == |Prefix(c)| + |Identity(c)|
    ensures r[..|Prefix(c)|] == Prefix(c) && r[|Prefix(c)|..] == Identity(c)
  {
    match c
    case Wrong(w) => WRONG_PREFIX + w.reason
    case Find(f) => FIND_PREFIX + f.path
    case Resize(r) => RESIZE_PREFIX + r.path
  }

  // ---------------------------------------------------------------------------------------------
  // Factory
  // ---------------------------------------------------------------------------------------------

  /** `create_command_from_parsed_json_value`: only a `find` with a string path is understood;
      anything else, `resize` included, is a wrong command with an empty reason. */
  function CreateCommandFromValue(json: Value): (r: AnyCommand)
    ensures r.Find? <==> Index(json, COMMAND_KEY) == String("find") && Index(json, "path").String?
    ensures r.Find? ==> r.find.path == Index(json, "path").s
    ensures !r.Find? ==> r == Wrong(WrongCommand(""))
  {
    if Index(json, COMMAND_KEY) == String("find") then
      match Index(json, "path")
      case String(path) => Find(FindImageCommand(path))
      case _ => Wrong(WrongCommand(""))
    else
      Wrong(WrongCommand(""))
  }

  /** `create_command_from_json_string`: text that is not a JSON document is a wrong command. */
  function CreateCommandFromJsonString(text: string): (r: AnyCommand)
    ensures FromStr(text).None? ==> r == Wrong(WrongCommand(""))
    ensures FromStr(text).Some? ==> r == CreateCommandFromValue(FromStr(text).value)
    ensures r.Find? ==> FromStr(text).Some? && Index(FromStr(text).value, COMMAND_KEY) == String("find")
    ensures !r.Resize?
  {
    match FromStr(text)
    case Some(json) => CreateCommandFromValue(json)
    case None => Wrong(WrongCommand(""))
  }

  // ---------------------------------------------------------------------------------------------
  // Properties
  // ---------------------------------------------------------------------------------------------

  /** Merging never moves a command to another group: the merged command has the hash key of the
      command merged into. */
  lemma MergeKeepsHashKey(a: AnyCommand, b: AnyCommand)
    requires SameKind(a, b)
    ensures HashKey(MergeWith(a, b)) == HashKey(a)
  {
  }

  /** Two commands share a hash key exactly when they are of the same kind and agree on their
      identifying field: the kind prefixes never collide. */
  lemma HashKeyInjective(a: AnyCommand, b: AnyCommand)
    ensures HashKey(a) == HashKey(b) <==> SameKind(a, b) && Identity(a) == Identity(b)
  {
    var ka, kb := HashKey(a), HashKey(b);
    if ka == kb {
      assert ka[0] == Prefix(a)[0] && kb[0] == Prefix(b)[0];
      assert SameKind(a, b);
      assert Identity(a) == ka[|Prefix(a)|..] == kb[|Prefix(b)|..] == Identity(b);
    }
  }

  /** Merging resize commands is associative: merging a batch of commands gives the same targets
      however the merges are grouped. */
  lemma ResizeMergeAssociative(a: ResizeImageCommand, b: ResizeImageCommand, c: ResizeImageCommand)
    ensures ResizeMergeWith(ResizeMergeWith(a, b), c) == ResizeMergeWith(a, ResizeMergeWith(b, c))
  {
    assert (a.targets + b.targets) + c.targets == a.targets + (b.targets + c.targets);
  }

  /** Merging in a command without targets changes nothing. */
  lemma ResizeMergeNoTargets(a: ResizeImageCommand, path: string)
    ensures ResizeMergeWith(a, ResizeImageCommand(path, [])) == a
  {
    assert a.targets + [] == a.targets;
  }

  /** Merging is idempotent for the kinds that absorb: merging a command with any other of its
      kind gives it back. */
  lemma AbsorbingMerge(a: AnyCommand, b: AnyCommand)
    requires SameKind(a, b) && !a.Resize?
    ensures MergeWith(a, b) == a
  {
  }

  /** On a `find` request the factory agrees with the line protocol's parser read under the same
      key; where that parser builds a resize command, the factory builds a wrong command. */
  lemma FactoryAgreesOnFind(json: Value)
    requires CommandParser.CommandSafe(COMMAND_KEY, json)
    ensures CreateCommandFromValue(json).Find? <==> CommandParser.CreateCommand(COMMAND_KEY, json).FindImage?
    ensures CreateCommandFromValue(json).Find? ==>
      CreateCommandFromValue(json).find.path == CommandParser.CreateCommand(COMMAND_KEY, json).path
    ensures CommandParser.CreateCommand(COMMAND_KEY, json).ResizeImage? ==>
      CreateCommandFromValue(json) == Wrong(WrongCommand(""))
  {
  }

  /** The serialized request for a find command is read back as that find command. */
  lemma FindRequestRoundTrip(path: string)
    ensures CreateCommandFromJsonString(Serialize(CommandParser.CommandJson(COMMAND_KEY, CommandParser.FindImage(path))))
         == Find(FindImageCommand(path))
  {
    var c := CommandParser.FindImage(path);
    var json := CommandParser.CommandJson(COMMAND_KEY, c);
    CommandParser.CommandTextRoundTrip(COMMAND_KEY, c);
    CommandParser.CommandJsonDepth(COMMAND_KEY, c);
    JsonRoundTrip.SerializeRoundTrip(json, "");
    FactoryAgreesOnFind(json);
  }

  /** The merges of the documented examples. */
  lemma MergeExamples()
    ensures MergeWith(Wrong(WrongCommand("Reasons")), Wrong(WrongCommand("Something Else")))
         == Wrong(WrongCommand("Reasons"))
    ensures MergeWith(Find(FindImageCommand("/some/file/path.jpg")), Find(FindImageCommand("/some/file/path2.jpg")))
         == Find(FindImageCommand("/some/file/path.jpg"))
    ensures ResizeMergeWith(
              ResizeImageCommand("/some/path.jpg", [ImageTarget("/some/path-100x200.jpg", 100, 200)]),
              ResizeImageCommand("/some/path.jpg", [ImageTarget("/some/path-200x300.jpg", 200, 300)]))
         == ResizeImageCommand("/some/path.jpg", [
              ImageTarget("/some/path-100x200.jpg", 100, 200),
              ImageTarget("/some/path-200x300.jpg", 200, 300)])
  {
  }

  /** The factory on invalid JSON and on an unknown command: a wrong command whose reason is
      empty. */
  lemma FactoryWrongExamples(v: Value, sp: string)
    requires v == Object([Member("command", String("something"))])
    requires Blank(sp)
    ensures CreateCommandFromJsonString("{,}") == Wrong(WrongCommand(""))
    ensures CreateCommandFromJsonString(Write(v, sp)) == Wrong(WrongCommand(""))
  {
    JsonRoundTrip.UnquotedKey("{,}", RECURSION_LIMIT);
    JsonRoundTrip.WrittenTextParses(v, sp);
    assert Normalize(v) == v;
  }

  /** `{"command":"find","path":"/path/to/file"}`, with the same blank after every `,` and `:`,
      is a find command. */
  lemma FactoryFindExample(v: Value, sp: string)
    requires v == Object([Member("command", String("find")), Member("path", String("/path/to/file"))])
    requires Blank(sp)
    ensures CreateCommandFromJsonString(Write(v, sp)) == Find(FindImageCommand("/path/to/file"))
  {
    var ms := v.members;
    assert NormalizeMembers(ms) == ms;
    assert !KeyLess("path", "command");
    assert Insert([], ms[0].key, ms[0].value) == [ms[0]];
    assert Insert([ms[0]], ms[1].key, ms[1].value) == ms;
    assert Normalize(v) == v;
    JsonRoundTrip.WrittenTextParses(v, sp);
  }
}
