/** The per-owner message registry (`Messages`): static-final message declarations of a
    class and its nested classes are registered first-wins under their key paths, after
    four generic messages are seeded. */
module MessageRegistry {
  import opened Wrappers
  import opened MessageValues
  import Themes

  /** The plugin that owns a set of messages, by identity. */
  type Owner = string

  type Registry = map<Owner, map<Key, Message>>

  /** The value read from a field: `null`, a message, or an access failure. */
  datatype FieldValue = NullValue | MessageValue(message: Message) | Inaccessible

  /** A declared or public field, with the modifiers the registration checks. */
  datatype Field = Field(isStatic: bool, isFinal: bool, isMessageType: bool, value: FieldValue)

  /** A class: whether it is the registry class itself, its fields (declared ones followed by
      public ones) and its declared nested classes. */
  datatype DeclClass = DeclClass(isRegistryClass: bool, fields: seq<Field>, nested: seq<DeclClass>)

  datatype RegistryError = NoRegisteredMessages

  // The built-in messages, written out as `createMessage` builds them: the dotted key
  // split at dots, and a default that holds theme codes but no `$` tags, so the
  // expansion leaves it unchanged.  The codes are those of the built-in theme settings
  // (`ThemeCode(map[], …)`): these messages are built when the class is first used, before
  // any theme file has been read, so a loaded theme does not recolour their defaults.
  const BLANK: Message := Message(None, "", 0)
  const SUCCESS_KEY: Key := ["generic", "success"]
  const ERROR_KEY: Key := ["generic", "error"]
  const EXCEPTION_KEY: Key := ["generic", "exception"]
  const CAUSE_EXCEPTION_KEY: Key := ["generic", "cause_exception"]
  const SUCCESS: Message := Message(Some(SUCCESS_KEY), Themes.ThemeCode(map[], Themes.SUCCESS) + "[SUCCESS]", 0)
  const ERROR: Message := Message(Some(ERROR_KEY), Themes.ThemeCode(map[], Themes.ERROR) + "[ERROR]", 0)
  const EXCEPTION: Message := Message(Some(EXCEPTION_KEY), Themes.ThemeCode(map[], Themes.PLAIN) + "%s", 1)
  const CAUSE_EXCEPTION: Message :=
    Message(Some(CAUSE_EXCEPTION_KEY), Themes.ThemeCode(map[], Themes.PLAIN) + "Caused by: %s", 1)
  const COULD_NOT_LOAD: Message := Message(Some(["generic", "could_not_load"]), "Could not load: %s", 1)
  const COULD_NOT_SAVE: Message := Message(Some(["generic", "could_not_save"]), "Could not save: %s", 1)

  /** Every entry is stored under its own key. */
  predicate Keyed(m: map<Key, Message>) {
    forall k :: k in m ==> m[k].key == Some(k)
  }

  /** `if (!containsKey(key)) put(key, message)`. */
  function PutIfAbsent(m: map<Key, Message>, msg: Message): (r: map<Key, Message>)
    requires msg.key.Some?
    ensures r.Keys == m.Keys + {msg.key.value}
    ensures forall k :: k in m ==> r[k] == m[k]
    ensures msg.key.value !in m ==> r[msg.key.value] == msg
    ensures Keyed(m) ==> Keyed(r)
  {
    if msg.key.value in m then m else m[msg.key.value := msg]
  }

  // ---------------------------------------------------------------------------
  // First-wins insertion of a sequence of messages
  // ---------------------------------------------------------------------------

  /** The keys of the keyed messages in `msgs`. */
  function KeysOf(msgs: seq<Message>): set<Key>
    decreases |msgs|
  {
    if |msgs| == 0 then {}
    else (if msgs[0].key.Some? then {msgs[0].key.value} else {}) + KeysOf(msgs[1..])
  }

  /** The first message in `msgs` whose key is `k`. */
  function First(msgs: seq<Message>, k: Key): (r: Option<Message>)
    ensures r.Some? ==> r.value.key == Some(k) && k in KeysOf(msgs)
    decreases |msgs|
  {
    if |msgs| == 0 then None
    else if msgs[0].key == Some(k) then Some(msgs[0])
    else First(msgs[1..], k)
  }

  /** Each keyed message in turn is put unless its key is already present: the keys of the
      messages are added, nothing present is replaced, and a key that was absent ends up with
      the first message carrying it. */
  function PutAll(m: map<Key, Message>, msgs: seq<Message>): (r: map<Key, Message>)
    ensures r.Keys == m.Keys + KeysOf(msgs)
    ensures forall k :: k in m ==> r[k] == m[k]
    ensures forall k :: k in r && k !in m ==> First(msgs, k) == Some(r[k])
    ensures Keyed(m) ==> Keyed(r)
    decreases |msgs|
  {
    if |msgs| == 0 then m
    else PutAll(if msgs[0].key.Some? then PutIfAbsent(m, msgs[0]) else m, msgs[1..])
  }

  /** The four messages every owner is seeded with, in seeding order. */
  function Generics(): seq<Message> {
    [SUCCESS, ERROR, EXCEPTION, CAUSE_EXCEPTION]
  }

  /** The keys of the generic messages. */
  function GenericKeys(): set<Key> {
    KeysOf(Generics())
  }

  /** Seeds SUCCESS, ERROR, EXCEPTION and CAUSE_EXCEPTION, each only if its key is absent. */
  function SeedGenerics(m: map<Key, Message>): map<Key, Message> {
    PutAll(m, Generics())
  }

  /** Putting messages whose keys are all present changes nothing. */
  lemma PutAllPresent(m: map<Key, Message>, msgs: seq<Message>)
    requires KeysOf(msgs) <= m.Keys
    ensures PutAll(m, msgs) == m
  {
    var r := PutAll(m, msgs);
    assert r.Keys == m.Keys;
  }

  /** Putting two runs of messages is putting their concatenation. */
  lemma {:induction false} PutAllConcat(m: map<Key, Message>, a: seq<Message>, b: seq<Message>)
    ensures PutAll(PutAll(m, a), b) == PutAll(m, a + b)
    decreases |a|
  {
    if |a| > 0 {
      var m' := if a[0].key.Some? then PutIfAbsent(m, a[0]) else m;
      assert (a + b)[0] == a[0] && (a + b)[1..] == a[1..] + b;
      assert PutAll(m, a) == PutAll(m', a[1..]);
      assert PutAll(m, a + b) == PutAll(m', a[1..] + b);
      PutAllConcat(m', a[1..], b);
    } else {
      assert a + b == b;
    }
  }

  // ---------------------------------------------------------------------------
  // Registration
  // ---------------------------------------------------------------------------

  /** A field that is registered: static, final, of message type, holding a keyed message. */
  predicate Registers(f: Field) {
    f.isStatic && f.isFinal && f.isMessageType && f.value.MessageValue? && f.value.message.key.Some?
  }

  /** The messages of the registering fields, in field order. */
  function FieldMessages(fields: seq<Field>): seq<Message>
    decreases |fields|
  {
    if |fields| == 0 then []
    else (if Registers(fields[0]) then [fields[0].value.message] else []) + FieldMessages(fields[1..])
  }

  /** The field loop: each registering field is put unless its key is already present. */
  function RegisterFields(m: map<Key, Message>, fields: seq<Field>): (r: map<Key, Message>)
    ensures r == PutAll(m, FieldMessages(fields))
    decreases |fields|
  {
    if |fields| == 0 then m
    else
      var f := fields[0];
      var m' := if Registers(f) then PutIfAbsent(m, f.value.message) else m;
      var r := RegisterFields(m', fields[1..]);
      if Registers(f) then
        assert ([f.value.message] + FieldMessages(fields[1..]))[1..] == FieldMessages(fields[1..]);
        r
      else
        assert [] + FieldMessages(fields[1..]) == FieldMessages(fields[1..]);
        r
  }

  /** The messages a class registers, in registration order: its own fields, then each nested
      class in turn, depth first; the registry class registers nothing. */
  function Decls(c: DeclClass): seq<Message>
    decreases c, |c.nested| + 1
  {
    if c.isRegistryClass then [] else FieldMessages(c.fields) + NestedDecls(c, 0)
  }

  /** The messages of the nested classes of `c` from index `i` on. */
  function NestedDecls(c: DeclClass, i: nat): seq<Message>
    requires i <= |c.nested|
    decreases c, |c.nested| - i
  {
    if i == |c.nested| then [] else Decls(c.nested[i]) + NestedDecls(c, i + 1)
  }

  /** Everything `registerMessages` puts for a class, in order: the generic messages, then the
      class's declarations. */
  function Registration(c: DeclClass): seq<Message> {
    Generics() + Decls(c)
  }

  /** `registerMessages` on one class, given the owner's map. */
  function RegisterClass(m: map<Key, Message>, c: DeclClass): (r: map<Key, Message>)
    ensures c.isRegistryClass ==> r == m
    ensures !c.isRegistryClass ==> r == PutAll(m, Registration(c))
    decreases c, |c.nested| + 1
  {
    if c.isRegistryClass then m
    else
      var m1 := SeedGenerics(m);
      var m2 := RegisterFields(m1, c.fields);
      var r := RegisterNested(m2, c, 0);
      PutAllConcat(m1, FieldMessages(c.fields), NestedDecls(c, 0));
      PutAllConcat(m, Generics(), Decls(c));
      r
  }

  /** The nested classes of `c` from index `i` on, into a map already seeded. */
  function RegisterNested(m: map<Key, Message>, c: DeclClass, i: nat): (r: map<Key, Message>)
    requires i <= |c.nested| && GenericKeys() <= m.Keys
    ensures r == PutAll(m, NestedDecls(c, i))
    decreases c, |c.nested| - i
  {
    if i == |c.nested| then m
    else
      var d := c.nested[i];
      var m' := RegisterClass(m, d);
      PutAllPresent(m, Generics());
      PutAllConcat(m, Generics(), Decls(d));
      assert m' == PutAll(m, Decls(d));
      var r := RegisterNested(m', c, i + 1);
      PutAllConcat(m, Decls(d), NestedDecls(c, i + 1));
      r
  }

  /** `registerMessages(owner, clazz)`: no effect for the registry class itself; otherwise the
      owner's map is created if needed and the class is registered into it. */
  function RegisterMessages(reg: Registry, owner: Owner, c: DeclClass): (r: Registry)
    ensures c.isRegistryClass ==> r == reg
    ensures !c.isRegistryClass ==> owner in r && r[owner] == PutAll(OwnerMap(reg, owner), Registration(c))
    ensures forall o :: o != owner ==> (o in r <==> o in reg) && (o in r ==> r[o] == reg[o])
  {
    if c.isRegistryClass then reg
    else SetOwnerMap(reg, owner, RegisterClass(OwnerMap(reg, owner), c))
  }

  /** The registry with one owner's map replaced. */
  function SetOwnerMap(reg: Registry, owner: Owner, m: map<Key, Message>): (r: Registry)
    ensures owner in r && r[owner] == m
    ensures forall o :: o != owner ==> (o in r <==> o in reg) && (o in r ==> r[o] == reg[o])
  {
    reg[owner := m]
  }

  /** Setting an owner's map to the one it has leaves the registry as it was. */
  lemma SetOwnerMapSame(reg: Registry, owner: Owner)
    requires owner in reg
    ensures SetOwnerMap(reg, owner, reg[owner]) == reg
  {
  }

  /** The owner's map, created empty when the owner has none. */
  function OwnerMap(reg: Registry, owner: Owner): map<Key, Message> {
    if owner in reg then reg[owner] else map[]
  }

  /** Registering a class into a map it was already registered into changes nothing. */
  lemma RegisterClassTwice(m: map<Key, Message>, c: DeclClass)
    ensures RegisterClass(RegisterClass(m, c), c) == RegisterClass(m, c)
  {
    if !c.isRegistryClass {
      PutAllPresent(RegisterClass(m, c), Registration(c));
    }
  }

  /** Registering the same class again for the same owner changes nothing. */
  lemma RegisterTwice(reg: Registry, owner: Owner, c: DeclClass)
    ensures RegisterMessages(RegisterMessages(reg, owner, c), owner, c) == RegisterMessages(reg, owner, c)
  {
    if !c.isRegistryClass {
      var m1 := RegisterClass(OwnerMap(reg, owner), c);
      RegisterClassTwice(OwnerMap(reg, owner), c);
      var r1 := SetOwnerMap(reg, owner, m1);
      assert OwnerMap(r1, owner) == m1;
      SetOwnerMapSame(r1, owner);
    }
  }

  // ---------------------------------------------------------------------------
  // Queries
  // ---------------------------------------------------------------------------

  function GetMessageKeys(reg: Registry, owner: Owner): (r: Result<set<Key>, RegistryError>)
    ensures r.Failure? <==> owner !in reg
    ensures r.Success? ==> r.value == reg[owner].Keys
  {
    if owner !in reg then Failure(NoRegisteredMessages) else Success(reg[owner].Keys)
  }

  /** `getMessage`: BLANK for a null key, otherwise the registered message or none. */
  function GetMessage(reg: Registry, owner: Owner, key: Option<Key>): (r: Result<Option<Message>, RegistryError>)
    ensures r.Failure? <==> owner !in reg
    ensures r.Success? && key.None? ==> r.value == Some(BLANK)
    ensures r.Success? && key.Some? ==> (r.value.Some? <==> key.value in reg[owner])
    ensures r.Success? && key.Some? && key.value in reg[owner] ==> r.value == Some(reg[owner][key.value])
  {
    if owner !in reg then Failure(NoRegisteredMessages)
    else if key.None? then Success(Some(BLANK))
    else if key.value in reg[owner] then Success(Some(reg[owner][key.value]))
    else Success(None)
  }

  function ContainsMessageKey(reg: Registry, owner: Owner, key: Key): (r: Result<bool, RegistryError>)
    ensures r.Failure? <==> owner !in reg
    ensures r.Success? ==> (r.value <==> key in reg[owner])
  {
    if owner !in reg then Failure(NoRegisteredMessages) else Success(key in reg[owner])
  }

  /** After registering any class but the registry itself, the owner's queries succeed and
      every generic or declared key is found, stored under its own key. */
  lemma RegisteredFound(reg: Registry, owner: Owner, c: DeclClass, k: Key)
    requires !c.isRegistryClass && (owner in reg ==> Keyed(reg[owner]))
    requires k in KeysOf(Registration(c))
    ensures ContainsMessageKey(RegisterMessages(reg, owner, c), owner, k) == Success(true)
    ensures var m := GetMessage(RegisterMessages(reg, owner, c), owner, Some(k));
            m.Success? && m.value.Some? && m.value.value.key == Some(k)
  {
    assert Keyed(OwnerMap(reg, owner));
  }

  /** A key the owner did not have before is answered with the first message registered under
      it: a generic one when the key is generic, otherwise the class's first declaration. */
  lemma RegisteredFirstWins(reg: Registry, owner: Owner, c: DeclClass, k: Key)
    requires !c.isRegistryClass && k !in OwnerMap(reg, owner) && k in KeysOf(Registration(c))
    ensures GetMessage(RegisterMessages(reg, owner, c), owner, Some(k)) == Success(First(Registration(c), k))
  {
    var m := RegisterMessages(reg, owner, c)[owner];
    assert k in m;
  }

  /** The generic messages are seeded before any declaration is read, so a class that declares
      a generic key of its own does not replace the generic message. */
  lemma GenericsWin(c: DeclClass)
    ensures First(Registration(c), SUCCESS_KEY) == Some(SUCCESS)
    ensures First(Registration(c), ERROR_KEY) == Some(ERROR)
  {
    var r := Registration(c);
    assert r[0] == SUCCESS && r[1] == ERROR;
    assert r[1..][0] == ERROR;
    assert SUCCESS_KEY[1][0] != ERROR_KEY[1][0];
  }

  // ---------------------------------------------------------------------------
  // The registry as written: keys compared by array identity
  // ---------------------------------------------------------------------------

  /** A key array object: its identity and its contents. */
  datatype KeyArray = KeyArray(id: nat, path: Key)

  /** Insertion into a map keyed by array objects: `containsKey` compares identities. */
  function RegisterByIdentity(m: map<nat, Message>, arr: KeyArray, msg: Message): map<nat, Message> {
    if arr.id in m then m else m[arr.id := msg]
  }

  /** Two declarations with the same dotted key hold two distinct key arrays: both are
      registered, and a lookup with a third array of equal contents finds nothing. */
  lemma IdentityKeyedDuplicates(msg1: Message, msg2: Message, path: Key)
    ensures var a1 := KeyArray(1, path);
            var a2 := KeyArray(2, path);
            var m := RegisterByIdentity(RegisterByIdentity(map[], a1, msg1), a2, msg2);
            |m| == 2 && m[a1.id] == msg1 && m[a2.id] == msg2 && KeyArray(3, path).id !in m
  {
    var m := RegisterByIdentity(RegisterByIdentity(map[], KeyArray(1, path), msg1), KeyArray(2, path), msg2);
    assert m.Keys == {1, 2};
  }

  /** With keys compared by contents, the second declaration of an equal key is ignored and
      any array with those contents finds the first. */
  lemma StructuralKeysFirstWins(msg1: Message, msg2: Message, path: Key)
    requires msg1.key == Some(path) && msg2.key == Some(path)
    ensures var m := PutIfAbsent(PutIfAbsent(map[], msg1), msg2);
            |m| == 1 && m[path] == msg1
  {
    var m := PutIfAbsent(PutIfAbsent(map[], msg1), msg2);
    assert m.Keys == {path};
  }
}
