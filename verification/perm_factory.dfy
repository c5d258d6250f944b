/** The builder for permissions and the registry behind it: whether a factory is registered,
    the permission name registered per plugin class, and the "all" and "all commands"
    permissions configured once per class. */
module PermFactories {
  import opened Wrappers
  import opened Strings
  import opened Perms

  /** The static state the factory keeps, per plugin class name. */
  datatype PermRegistry = PermRegistry(
    hasFactory: bool,
    permNames: map<string, string>,
    allPerms: map<string, Perm>,
    commandPerms: map<string, Perm>)

  /** The builder's fields. */
  datatype PermFactory = PermFactory(
    pluginClass: PluginClass,
    name: string,
    description: string,
    children: map<string, bool>,
    permissionDefault: PermDefault,
    parents: map<string, bool>,
    baseName: bool,
    specificOnly: bool)

  /** `IllegalStateException` without a registered factory; `IllegalArgumentException` for a
      class without a permission name or a null argument; the exception `getName()` raises for
      a specific-only permission; `NullPointerException` for a parent that is not configured. */
  datatype FactoryError = NoFactory | NoPermissionName | NullArgument | SpecificOnlyName | MissingPerm

  /** Nothing registered. */
  const EMPTY_REGISTRY: PermRegistry := PermRegistry(false, map[], map[], map[])

  /** `registerPermissionFactory` / `useBasicPermissionFactory`. */
  function RegisterFactory(reg: PermRegistry): (r: PermRegistry)
    ensures r.hasFactory && r.(hasFactory := reg.hasFactory) == reg
  {
    reg.(hasFactory := true)
  }

  /** `registerPermissionName`. */
  function RegisterPermissionName(reg: PermRegistry, cls: PluginClass, permissionName: string): PermRegistry {
    reg.(permNames := reg.permNames[cls.name := permissionName])
  }

  /** `getPermissionName`. */
  function GetPermissionName(reg: PermRegistry, cls: PluginClass): Option<string> {
    if cls.name in reg.permNames then Some(reg.permNames[cls.name]) else None
  }

  /** The `PermFactory` constructor: both arguments must be present; the description is empty,
      there are no children or parents, the default is OP, and neither flag is set. */
  function NewFactory(pluginClass: Option<PluginClass>, permName: Option<string>): (r: Result<PermFactory, FactoryError>)
    ensures r.Failure? <==> pluginClass.None? || permName.None?
    ensures r.Success? ==> r.value.pluginClass == pluginClass.value && r.value.name == permName.value
  {
    if pluginClass.None? || permName.None? then Failure(NullArgument)
    else Success(PermFactory(pluginClass.value, permName.value, "", map[], Op, map[], false, false))
  }

  /** `desc`. */
  function Desc(f: PermFactory, description: string): PermFactory {
    f.(description := description)
  }

  /** `child(name, state)`: the name is kept as given. */
  function ChildState(f: PermFactory, name: string, state: bool): PermFactory {
    f.(children := f.children[name := state])
  }

  /** `child(name)`: granted by default. */
  function Child(f: PermFactory, name: string): PermFactory {
    ChildState(f, name, true)
  }

  /** `child(perm, state)`: by the permission's name, which a specific-only permission refuses. */
  function ChildPerm(f: PermFactory, perm: Perm, state: bool): Result<PermFactory, FactoryError> {
    match GetName(perm)
    case Failure(_) => Failure(SpecificOnlyName)
    case Success(n) => Success(ChildState(f, n, state))
  }

  /** `parent(name, state)`: the name is lower-cased. */
  function ParentState(f: PermFactory, name: string, state: bool): PermFactory {
    f.(parents := f.parents[ToLower(name) := state])
  }

  /** `parent(name)`: lower-cased here and again by `parent(name, true)`. */
  function Parent(f: PermFactory, name: string): PermFactory {
    ParentState(f, ToLower(name), true)
  }

  /** `parent(perm, state)`. */
  function ParentPerm(f: PermFactory, perm: Perm, state: bool): Result<PermFactory, FactoryError> {
    match GetName(perm)
    case Failure(_) => Failure(SpecificOnlyName)
    case Success(n) => Success(ParentState(f, n, state))
  }

  /** `addToAll`: the class's "all" permission as a parent; a class whose parents are not
      configured has none, and the call fails. */
  function AddToAll(reg: PermRegistry, f: PermFactory): Result<PermFactory, FactoryError> {
    if f.pluginClass.name !in reg.allPerms then Failure(MissingPerm)
    else match GetName(reg.allPerms[f.pluginClass.name])
      case Failure(_) => Failure(SpecificOnlyName)
      case Success(n) => Success(Parent(f, n))
  }

  /** `commandPermission`: the class's "all commands" permission as a parent. */
  function CommandPermission(reg: PermRegistry, f: PermFactory): Result<PermFactory, FactoryError> {
    if f.pluginClass.name !in reg.commandPerms then Failure(MissingPerm)
    else match GetName(reg.commandPerms[f.pluginClass.name])
      case Failure(_) => Failure(SpecificOnlyName)
      case Success(n) => Success(Parent(f, n))
  }

  /** `def`. */
  function Def(f: PermFactory, permissionDefault: PermDefault): PermFactory {
    f.(permissionDefault := permissionDefault)
  }

  /** `usePluginName`. */
  function UsePluginName(f: PermFactory): PermFactory {
    f.(baseName := true)
  }

  /** `specificOnly`. */
  function SpecificOnly(f: PermFactory): PermFactory {
    f.(specificOnly := true)
  }

  /** `build` of the basic factory: the permission with the builder's fields, its base name
      taken from the registry, else from the class's own `getPermissionName` (`declared`),
      else the simple class name. */
  function Build(reg: PermRegistry, declared: Option<string>, f: PermFactory): (p: Perm)
    ensures p.children == f.children && p.parents == f.parents && p.description == f.description
    ensures p.permDefault == f.permissionDefault && p.specificOnly == f.specificOnly
  {
    var base := BaseNameFromClass(GetPermissionName(reg, f.pluginClass), declared, f.pluginClass);
    NewPerm(base, f.name, f.description, f.children, f.permissionDefault, f.parents, f.baseName, f.specificOnly)
  }

  /** `newUncheckedPerm`: a builder for the class and name. */
  function NewUncheckedPerm(cls: PluginClass, permName: string): (f: PermFactory)
    ensures f.pluginClass == cls && f.name == permName
  {
    NewFactory(Some(cls), Some(permName)).value
  }

  /** The "all" permission of a class: `<base>.*` under the plugin name. */
  function AllPerm(reg: PermRegistry, declared: Option<string>, cls: PluginClass): Perm {
    Build(reg, declared, UsePluginName(NewUncheckedPerm(cls, "*")))
  }

  /** The "all commands" permission of a class: `<base>.cmd.*`, a child of the "all"
      permission. */
  function CommandPerm(reg: PermRegistry, declared: Option<string>, cls: PluginClass): Perm {
    var all := AllPerm(reg, declared, cls);
    Build(reg, declared, Parent(UsePluginName(NewUncheckedPerm(cls, "cmd" + [SEPARATOR] + "*")), all.name))
  }

  /** Every class with an "all" permission has an "all commands" one and the reverse, as the
      two maps are always filled together. */
  predicate Consistent(reg: PermRegistry) {
    reg.allPerms.Keys == reg.commandPerms.Keys
  }

  /** `ensureParentPermsConfigured`: the two permissions are created the first time only. */
  function EnsureParentPermsConfigured(reg: PermRegistry, declared: Option<string>, cls: PluginClass): (r: PermRegistry)
    ensures r.hasFactory == reg.hasFactory && r.permNames == reg.permNames
    ensures cls.name in r.allPerms && r.allPerms.Keys == reg.allPerms.Keys + {cls.name}
    ensures forall c :: c in reg.allPerms ==> c in r.allPerms && r.allPerms[c] == reg.allPerms[c]
    ensures Consistent(reg) ==> Consistent(r) && cls.name in r.commandPerms
  {
    if cls.name in reg.allPerms then reg
    else
      reg.(allPerms := reg.allPerms[cls.name := AllPerm(reg, declared, cls)],
           commandPerms := reg.commandPerms[cls.name := CommandPerm(reg, declared, cls)])
  }

  /** `newPerm`: a registered factory and a permission name for the class are required; the
      class's parent permissions are configured, then the builder is constructed. The registry
      is returned with the outcome, since the parents stay configured when the constructor
      then refuses a missing name. */
  function NewPermBuilder(reg: PermRegistry, declared: Option<string>, cls: PluginClass, permName: Option<string>)
    : (PermRegistry, Result<PermFactory, FactoryError>)
  {
    if !reg.hasFactory then (reg, Failure(NoFactory))
    else if cls.name !in reg.permNames then (reg, Failure(NoPermissionName))
    else (EnsureParentPermsConfigured(reg, declared, cls), NewFactory(Some(cls), permName))
  }

  // ---------------------------------------------------------------------------
  // Properties
  // ---------------------------------------------------------------------------

  /** All keys lower-case. */
  predicate LowerKeys(m: map<string, bool>) {
    forall k :: k in m ==> IsLowerCase(k)
  }

  /** `child(name)` grants `name` itself, exactly as written, and changes no other entry. */
  lemma ChildGrants(f: PermFactory, name: string)
    ensures var g := Child(f, name);
            name in g.children && g.children[name]
            && g.children.Keys == f.children.Keys + {name}
            && (forall k :: k in f.children && k != name ==> g.children[k] == f.children[k])
            && g.(children := f.children) == f
  {
  }

  /** A parent is recorded under its lower-cased name, so the builder's parents stay lower-case,
      and parents differing only in case are the same parent. */
  lemma ParentLowerCased(f: PermFactory, name: string, state: bool)
    ensures LowerKeys(f.parents) ==> LowerKeys(ParentState(f, name, state).parents)
    ensures ToLower(name) in ParentState(f, name, state).parents
            && ParentState(f, name, state).parents[ToLower(name)] == state
    ensures ParentState(f, name, state) == ParentState(f, ToLower(name), state)
    ensures Parent(f, name) == ParentState(f, name, true)
  {
    LowerIdempotent(name);
  }

  /** A new builder has no children and no parents, so its parents are lower-case. */
  lemma NewFactoryDefaults(cls: PluginClass, permName: string)
    ensures var f := NewFactory(Some(cls), Some(permName)).value;
            f.children == map[] && LowerKeys(f.parents) && f.permissionDefault == Op
            && f.description == "" && !f.baseName && !f.specificOnly
  {
  }

  /** `newPerm` fails without a factory, then without a permission name for the class, in
      both cases leaving the registry as it was; otherwise both parent permissions of the class
      are configured, and the builder, for the class and name, is refused exactly when the name
      is missing. */
  lemma NewPermChecks(reg: PermRegistry, declared: Option<string>, cls: PluginClass, permName: Option<string>)
    ensures var (reg', r) := NewPermBuilder(reg, declared, cls, permName);
            (r == Failure(NoFactory) <==> !reg.hasFactory)
            && (r == Failure(NoPermissionName) <==> reg.hasFactory && cls.name !in reg.permNames)
            && (r == Failure(NullArgument) <==> reg.hasFactory && cls.name in reg.permNames && permName.None?)
            && (!reg.hasFactory || cls.name !in reg.permNames ==> reg' == reg)
            && (reg.hasFactory && cls.name in reg.permNames ==>
                  cls.name in reg'.allPerms && (Consistent(reg) ==> cls.name in reg'.commandPerms))
            && (r.Success? ==> r.value.pluginClass == cls && r.value.name == permName.value)
  {
  }

  /** A child or parent given as a permission is recorded under that permission's name, and a
      specific-only permission is refused. */
  lemma PermReferencesByName(f: PermFactory, perm: Perm, state: bool)
    ensures ChildPerm(f, perm, state).Failure? <==> perm.specificOnly
    ensures ParentPerm(f, perm, state).Failure? <==> perm.specificOnly
    ensures !perm.specificOnly ==> ChildPerm(f, perm, state) == Success(ChildState(f, perm.name, state))
                                   && ParentPerm(f, perm, state) == Success(ParentState(f, perm.name, state))
  {
  }

  /** Once a class's parents are configured, `addToAll` and `commandPermission` add the "all"
      and "all commands" permissions as granted parents; before that they fail. */
  lemma ParentShortcuts(reg: PermRegistry, declared: Option<string>, f: PermFactory)
    ensures f.pluginClass.name !in reg.allPerms ==> AddToAll(reg, f) == Failure(MissingPerm)
    ensures f.pluginClass.name !in reg.commandPerms ==> CommandPermission(reg, f) == Failure(MissingPerm)
    ensures var reg' := EnsureParentPermsConfigured(reg, declared, f.pluginClass);
            f.pluginClass.name !in reg.allPerms ==>
              AddToAll(reg', f) == Success(ParentState(f, AllPerm(reg, declared, f.pluginClass).name, true))
              && (Consistent(reg) ==>
                  CommandPermission(reg', f) == Success(ParentState(f, CommandPerm(reg, declared, f.pluginClass).name, true)))
  {
    var cls := f.pluginClass;
    if cls.name !in reg.allPerms {
      LowerIdempotent(AllPerm(reg, declared, cls).name);
      LowerIdempotent(CommandPerm(reg, declared, cls).name);
    }
  }

  /** Registration keeps the two permission maps in step. */
  lemma RegistryConsistent(reg: PermRegistry, cls: PluginClass, permissionName: string)
    requires Consistent(reg)
    ensures Consistent(EMPTY_REGISTRY)
    ensures Consistent(RegisterFactory(reg)) && Consistent(RegisterPermissionName(reg, cls, permissionName))
    ensures GetPermissionName(RegisterPermissionName(reg, cls, permissionName), cls) == Some(permissionName)
  {
  }

  /** The "all commands" permission is built as `addToAll` would build it once the "all"
      permission is in the registry. */
  lemma CommandPermAddsToAll(reg: PermRegistry, declared: Option<string>, cls: PluginClass)
    ensures var all := AllPerm(reg, declared, cls);
            var withAll := reg.(allPerms := reg.allPerms[cls.name := all]);
            var builder := UsePluginName(NewUncheckedPerm(cls, "cmd" + [SEPARATOR] + "*"));
            AddToAll(withAll, builder) == Success(Parent(builder, all.name))
  {
  }

  /** Configuring a class's parents a second time changes nothing. */
  lemma EnsureIdempotent(reg: PermRegistry, declared: Option<string>, cls: PluginClass)
    ensures var once := EnsureParentPermsConfigured(reg, declared, cls);
            EnsureParentPermsConfigured(once, declared, cls) == once
  {
  }

  /** For a class with a registered permission name, the "all" permission is `<name>.*`, the
      "all commands" permission is `<name>.cmd.*`, and the latter has the former as its one
      parent, granted. */
  lemma ParentPermNames(reg: PermRegistry, declared: Option<string>, cls: PluginClass)
    requires cls.name in reg.permNames
    ensures var base := reg.permNames[cls.name];
            var all := AllPerm(reg, declared, cls);
            var cmd := CommandPerm(reg, declared, cls);
            all.name == ToLower(base) + ".*"
            && cmd.name == ToLower(base) + ".cmd.*"
            && cmd.parents == map[all.name := true]
            && GetName(all) == Success(all.name)
  {
    var base := reg.permNames[cls.name];
    ComposedNameShape(true, base, "*");
    ComposedNameShape(true, base, "cmd.*");
    var all := AllPerm(reg, declared, cls);
    LowerIdempotent(all.name);
  }

  /** A built permission carries the builder's name, lower-cased and, with the plugin name,
      after the registered permission name of the class. */
  lemma BuildName(reg: PermRegistry, declared: Option<string>, f: PermFactory)
    requires f.pluginClass.name in reg.permNames
    ensures var base := reg.permNames[f.pluginClass.name];
            Build(reg, declared, f).name
            == (if f.baseName then ToLower(base) + [SEPARATOR] + ToLower(f.name) else ToLower(f.name))
  {
    ComposedNameShape(f.baseName, reg.permNames[f.pluginClass.name], f.name);
  }
}
