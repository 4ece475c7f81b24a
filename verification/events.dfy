/** The events of `events.rs`, sent back to the client as one compact JSON object each. */
module Events {
  import opened Results
  import opened Json
  import opened JsonText
  import JsonRoundTrip
  import opened Text

  datatype Event =
    | ImageFound(path: string)
    | ImageNotFound(path: string)
    | ImageResizeComplete(target: string)
    | ImageResizeFailed(target: string, reason: string)

  function Found(path: string): (e: Event)
    ensures e.ImageFound? && e.path == path
  {
    ImageFound(path)
  }

  function NotFound(path: string): (e: Event)
    ensures e.ImageNotFound? && e.path == path
  {
    ImageNotFound(path)
  }

  function ResizeComplete(target: string): (e: Event)
    ensures e.ImageResizeComplete? && e.target == target
  {
    ImageResizeComplete(target)
  }

  function ResizeFailed(target: string, reason: string): (e: Event)
    ensures e.ImageResizeFailed? && e.target == target && e.reason == reason
  {
    ImageResizeFailed(target, reason)
  }

  /** The value written under the `event` key. */
  function Name(e: Event): string
  {
    match e
    case ImageFound(_) => "found"
    case ImageNotFound(_) => "not_found"
    case ImageResizeComplete(_) => "resize_completed"
    case ImageResizeFailed(_, _) => "resize_failed"
  }

  /** The members of the `json!` literal for `e`, in the order the literal lists them. */
  function Fields(e: Event): seq<Member>
  {
    match e
    case ImageFound(path) => [Member("event", String("found")), Member("path", String(path))]
    case ImageNotFound(path) => [Member("event", String("not_found")), Member("path", String(path))]
    case ImageResizeComplete(target) => [Member("event", String("resize_completed")), Member("target", String(target))]
    case ImageResizeFailed(target, reason) =>
      [Member("event", String("resize_failed")), Member("target", String(target)), Member("reason", String(reason))]
  }

  /** The object `json!` builds: its map keeps keys sorted, so a failed resize lists `reason`
      before `target`. */
  function ToJson(e: Event): (v: Value)
    ensures WellFormed(v)
    ensures !e.ImageResizeFailed? ==> v == Object(Fields(e))
    ensures e.ImageResizeFailed? ==> v == Object([
      Member("event", String("resize_failed")), Member("reason", String(e.reason)), Member("target", String(e.target))])
  {
    FieldsInserted(e);
    Object(InsertAll([], Fields(e)))
  }

  /** The sorted members of `ToJson(e)`. */
  function SortedFields(e: Event): seq<Member>
  {
    if e.ImageResizeFailed? then
      [Member("event", String("resize_failed")), Member("reason", String(e.reason)), Member("target", String(e.target))]
    else
      Fields(e)
  }

  lemma InsertAfterOne(m: Member, k: string, v: Value)
    requires KeyLess(m.key, k)
    ensures Insert([m], k, v) == [m, Member(k, v)]
  {
    KeyLessIrreflexive(k);
    KeyLessAsymmetric(m.key, k);
    assert Insert([m][1..], k, v) == [Member(k, v)];
  }

  lemma InsertBeforeOne(m: Member, k: string, v: Value)
    requires KeyLess(k, m.key)
    ensures Insert([m], k, v) == [Member(k, v), m]
  {
    KeyLessIrreflexive(k);
  }

  /** Two members in key order are inserted as they come. */
  lemma TwoInserted(m0: Member, m1: Member)
    requires KeyLess(m0.key, m1.key)
    ensures InsertAll([], [m0, m1]) == [m0, m1]
  {
    var fs := [m0, m1];
    assert Insert([], m0.key, m0.value) == [m0];
    InsertAfterOne(m0, m1.key, m1.value);
    assert fs[1..] == [m1] && fs[1..][1..] == [];
    assert InsertAll([], fs) == InsertAll([m0], [m1]);
    assert InsertAll([m0], [m1]) == InsertAll([m0, m1], []);
  }

  /** Three members whose last two keys are out of order are inserted with those two swapped. */
  lemma ThreeInserted(m0: Member, m1: Member, m2: Member)
    requires KeyLess(m0.key, m2.key) && KeyLess(m2.key, m1.key)
    ensures InsertAll([], [m0, m1, m2]) == [m0, m2, m1]
  {
    KeyLessTransitive(m0.key, m2.key, m1.key);
    var fs := [m0, m1, m2];
    assert Insert([], m0.key, m0.value) == [m0];
    InsertAfterOne(m0, m1.key, m1.value);
    InsertBeforeOne(m1, m2.key, m2.value);
    KeyLessIrreflexive(m2.key);
    KeyLessAsymmetric(m0.key, m2.key);
    assert Insert([m0, m1], m2.key, m2.value) == [m0] + Insert([m1], m2.key, m2.value);
    assert fs[1..] == [m1, m2] && fs[1..][1..] == [m2];
    assert InsertAll([], fs) == InsertAll([m0], [m1, m2]);
    assert InsertAll([m0], [m1, m2]) == InsertAll([m0, m1], [m2]);
    assert InsertAll([m0, m1], [m2]) == InsertAll([m0, m2, m1], []);
  }

  lemma FieldsInserted(e: Event)
    ensures InsertAll([], Fields(e)) == SortedFields(e)
    ensures WellFormed(Object(SortedFields(e)))
  {
    var fs := Fields(e);
    assert KeyLess("event", "path") && KeyLess("event", "target") && KeyLess("event", "reason");
    assert KeyLess("reason", "target");
    if e.ImageResizeFailed? {
      ThreeInserted(fs[0], fs[1], fs[2]);
    } else {
      TwoInserted(fs[0], fs[1]);
    }
  }

  /** The text of a member whose key and value are both strings. */
  function StringMember(key: string, value: string): string
  {
    Quote(key) + ":" + Quote(value)
  }

  lemma OneStringMember(k: string, v: string)
    ensures WriteMembers([Member(k, String(v))], "") == StringMember(k, v)
  {
    assert Quote(k) + ":" + "" == Quote(k) + ":";
  }

  lemma TwoStringMembers(k1: string, v1: string, k2: string, v2: string)
    ensures WriteMembers([Member(k1, String(v1)), Member(k2, String(v2))], "")
         == StringMember(k1, v1) + "," + StringMember(k2, v2)
  {
    var ms := [Member(k1, String(v1)), Member(k2, String(v2))];
    assert ms[1..] == [Member(k2, String(v2))];
    OneStringMember(k2, v2);
    assert Quote(k1) + ":" + "" == Quote(k1) + ":";
    var a := StringMember(k1, v1);
    assert a + "," + "" == a + ",";
  }

  lemma ThreeStringMembers(k1: string, v1: string, k2: string, v2: string, k3: string, v3: string)
    ensures WriteMembers([Member(k1, String(v1)), Member(k2, String(v2)), Member(k3, String(v3))], "")
         == StringMember(k1, v1) + "," + StringMember(k2, v2) + "," + StringMember(k3, v3)
  {
    var ms := [Member(k1, String(v1)), Member(k2, String(v2)), Member(k3, String(v3))];
    assert ms[1..] == [Member(k2, String(v2)), Member(k3, String(v3))];
    TwoStringMembers(k2, v2, k3, v3);
    assert Quote(k1) + ":" + "" == Quote(k1) + ":";
    var a, b, c := StringMember(k1, v1), StringMember(k2, v2), StringMember(k3, v3);
    assert a + "," + "" == a + ",";
    assert WriteMembers(ms, "") == a + "," + (b + "," + c);
    Assoc(a + ",", b + ",", c);
    Assoc(a + ",", b, ",");
  }

  /** The exact text of an event with two members. */
  lemma TwoMemberShape(e: Event, k: string, value: string)
    requires !e.ImageResizeFailed? && Fields(e) == [Member("event", String(Name(e))), Member(k, String(value))]
    ensures Serialize(ToJson(e)) == "{" + StringMember("event", Name(e)) + "," + StringMember(k, value) + "}"
  {
    var ms := Fields(e);
    assert ToJson(e) == Object(ms);
    TwoStringMembers("event", Name(e), k, value);
    var a, b := StringMember("event", Name(e)), StringMember(k, value);
    assert Serialize(Object(ms)) == "{" + WriteMembers(ms, "") + "}";
    Assoc("{", a + ",", b);
    Assoc("{", a, ",");
  }

  lemma AppendBraces(a: string, b: string, c: string)
    ensures "{" + (a + "," + b + "," + c) + "}" == "{" + a + "," + b + "," + c + "}"
  {
  }

  /** The exact text of a failed resize. */
  lemma FailedShape(e: Event)
    requires e.ImageResizeFailed?
    ensures Serialize(ToJson(e)) == "{" + StringMember("event", Name(e)) + "," + StringMember("reason", e.reason) + ","
             + StringMember("target", e.target) + "}"
  {
    var ms := [Member("event", String("resize_failed")), Member("reason", String(e.reason)), Member("target", String(e.target))];
    assert ToJson(e) == Object(ms);
    ThreeStringMembers("event", "resize_failed", "reason", e.reason, "target", e.target);
    var a, b, c := StringMember("event", "resize_failed"), StringMember("reason", e.reason), StringMember("target", e.target);
    var body := a + "," + b + "," + c;
    assert Serialize(Object(ms)) == "{" + body + "}";
    AppendBraces(a, b, c);
  }

  /** `to_string`: the compact JSON text of the event, which serde_json reads back as the event's
      object. */
  function ToString(e: Event): (r: string)
    ensures FromStr(r) == Some(ToJson(e))
  {
    ToJsonDepth(e);
    JsonRoundTrip.SerializeRoundTrip(ToJson(e), "");
    Serialize(ToJson(e))
  }

  /** Every field of an event is a string, so its object nests one level deep. */
  lemma ToJsonDepth(e: Event)
    ensures Depth(ToJson(e)) == 1
  {
    FieldsInserted(e);
    MembersDepthBound(SortedFields(e), 0);
  }

  /** The text of each event: its kind first, then its fields in key order, with no whitespace. */
  lemma ToStringShape(e: Event)
    ensures e.ImageFound? || e.ImageNotFound? ==>
      ToString(e) == "{" + StringMember("event", Name(e)) + "," + StringMember("path", e.path) + "}"
    ensures e.ImageResizeComplete? ==>
      ToString(e) == "{" + StringMember("event", Name(e)) + "," + StringMember("target", e.target) + "}"
    ensures e.ImageResizeFailed? ==>
      ToString(e) == "{" + StringMember("event", Name(e)) + "," + StringMember("reason", e.reason) + ","
             + StringMember("target", e.target) + "}"
  {
    match e
    case ImageFound(path) => TwoMemberShape(e, "path", path);
    case ImageNotFound(path) => TwoMemberShape(e, "path", path);
    case ImageResizeComplete(target) => TwoMemberShape(e, "target", target);
    case ImageResizeFailed(_, _) => FailedShape(e);
  }

  // ---------------------------------------------------------------------------------------------
  // Reading an event back
  // ---------------------------------------------------------------------------------------------

  /** What a client reads from an event object: the kind named under `event` and its string
      fields. */
  function FromJson(v: Value): (r: Option<Event>)
    ensures r.Some? ==> Index(v, "event") == String(Name(r.value))
  {
    match Index(v, "event")
    case String(name) =>
      if name == "found" && Index(v, "path").String? then Some(ImageFound(Index(v, "path").s))
      else if name == "not_found" && Index(v, "path").String? then Some(ImageNotFound(Index(v, "path").s))
      else if name == "resize_completed" && Index(v, "target").String? then
        Some(ImageResizeComplete(Index(v, "target").s))
      else if name == "resize_failed" && Index(v, "target").String? && Index(v, "reason").String? then
        Some(ImageResizeFailed(Index(v, "target").s, Index(v, "reason").s))
      else None
    case _ => None
  }

  /** An event's text parses back to the object it was written from, and that object to the
      event: no two events are sent as the same text. */
  lemma EventRoundTrip(e: Event)
    ensures FromStr(ToString(e)) == Some(ToJson(e))
    ensures FromJson(ToJson(e)) == Some(e)
  {
    FromJsonInverse(e);
  }

  lemma FromJsonInverse(e: Event)
    ensures FromJson(ToJson(e)) == Some(e)
  {
    var ms := SortedFields(e);
    assert ToJson(e) == Object(ms);
    assert Lookup(ms, "event") == Some(String(Name(e)));
    if e.ImageResizeFailed? {
      assert Lookup(ms, "reason") == Some(String(e.reason));
      assert "event" != "target" && "reason" != "target";
      var tail := ms[1..];
      assert tail == [Member("reason", String(e.reason)), Member("target", String(e.target))];
      assert tail[1..] == [Member("target", String(e.target))];
      assert Lookup(tail, "target") == Some(String(e.target));
      assert Lookup(ms, "target") == Lookup(tail, "target");
    } else if e.ImageResizeComplete? {
      assert ms == [Member("event", String("resize_completed")), Member("target", String(e.target))];
      assert "event" != "target";
      assert ms[1..] == [Member("target", String(e.target))];
      assert Lookup(ms, "target") == Some(String(e.target));
    } else {
      assert Lookup(ms, "path") == Some(String(e.path));
    }
  }

  lemma ToStringInjective(e1: Event, e2: Event)
    ensures ToString(e1) == ToString(e2) <==> e1 == e2
  {
    EventRoundTrip(e1);
    EventRoundTrip(e2);
  }
}
