/** A permission: its fully realized name, made lower-case and optionally prefixed with the
    plugin's base name, its description, its children and parents with their default states,
    and whether it is only usable with a specific sub-node attached. */
module Perms {
  import opened Wrappers
  import opened Strings

  /** Separates permission namespaces. */
  const SEPARATOR: char := '.'

  /** The default setting of a permission. */
  datatype PermDefault = True | False | Op | NotOp

  /** The two names of a plugin class the permission layer uses: `getName` and
      `getSimpleName`. */
  datatype PluginClass = PluginClass(name: string, simpleName: string)

  datatype Perm = Perm(
    name: string,
    description: string,
    children: map<string, bool>,
    permDefault: PermDefault,
    parents: map<string, bool>,
    specificOnly: bool)

  /** `UnsupportedOperationException` from `getName()` on a specific-only permission. */
  datatype PermError = SpecificOnlyPerm

  /** `getBaseNameFromClass`: the registered permission name, else what the class's own static
      `getPermissionName` returns (`declared`, `None` when it is missing or fails), else the
      simple class name. */
  function BaseNameFromClass(registered: Option<string>, declared: Option<string>, cls: PluginClass): (r: string)
    ensures registered.Some? ==> r == registered.value
    ensures registered.None? && declared.Some? ==> r == declared.value
    ensures registered.None? && declared.None? ==> r == cls.simpleName
  {
    match registered
    case Some(n) => n
    case None => declared.GetOr(cls.simpleName)
  }

  /** The name the constructor stores: lower-cased, after `base.` when the base name is used. */
  function ComposeName(useBase: bool, base: string, name: string): string {
    if useBase then ToLower(base + [SEPARATOR] + name) else ToLower(name)
  }

  /** The `Perm` constructor. */
  function NewPerm(base: string, name: string, description: string, children: map<string, bool>,
                   permDefault: PermDefault, parents: map<string, bool>, useBase: bool,
                   specificOnly: bool): (p: Perm)
    ensures p.name == ComposeName(useBase, base, name)
    ensures p.description == description && p.children == children && p.parents == parents
    ensures p.permDefault == permDefault && p.specificOnly == specificOnly
  {
    Perm(ComposeName(useBase, base, name), description, children, permDefault, parents, specificOnly)
  }

  /** `getName()`: the name, refused for a specific-only permission. */
  function GetName(p: Perm): Result<string, PermError> {
    if p.specificOnly then Failure(SpecificOnlyPerm) else Success(p.name)
  }

  /** `getName(specific)`: the name, the separator and the lower-cased specific node. */
  function GetSpecificName(p: Perm, specific: string): string {
    p.name + [SEPARATOR] + ToLower(specific)
  }

  /** `hasPermission(permissible)`: what the permissible says about the name. */
  function HasPermission(p: Perm, permissible: string -> bool): Result<bool, PermError> {
    match GetName(p)
    case Failure(e) => Failure(e)
    case Success(n) => Success(permissible(n))
  }

  /** `hasPermission(permissible, specific)`. */
  function HasSpecificPermission(p: Perm, permissible: string -> bool, specific: string): bool {
    permissible(GetSpecificName(p, specific))
  }

  // ---------------------------------------------------------------------------
  // Properties
  // ---------------------------------------------------------------------------

  predicate IsLowerCase(s: string) {
    ToLower(s) == s
  }

  /** The stored name is lower-case; with the base name it is the lower-cased base, the
      separator and the lower-cased name, and without it the lower-cased name alone. */
  lemma ComposedNameShape(useBase: bool, base: string, name: string)
    ensures IsLowerCase(ComposeName(useBase, base, name))
    ensures useBase ==> ComposeName(useBase, base, name) == ToLower(base) + [SEPARATOR] + ToLower(name)
    ensures !useBase ==> ComposeName(useBase, base, name) == ToLower(name)
  {
    LowerIdempotent(if useBase then base + [SEPARATOR] + name else name);
    if useBase {
      LowerConcat(base + [SEPARATOR], name);
      LowerConcat(base, [SEPARATOR]);
    }
  }

  /** The name is read back exactly when the permission is not specific-only. */
  lemma GetNameRefusesSpecificOnly(p: Perm)
    ensures GetName(p).Failure? <==> p.specificOnly
    ensures GetName(p).Success? ==> GetName(p).value == p.name
  {
  }

  /** Attaching a specific node gives the name of the permission declared with that node
      appended: `getName(specific)` of `base.name` is the composed `base.name.specific`. */
  lemma SpecificIsComposed(useBase: bool, base: string, name: string, specific: string)
    ensures var p := NewPerm(base, name, "", map[], Op, map[], useBase, true);
            GetSpecificName(p, specific) == ComposeName(useBase, base, name + [SEPARATOR] + specific)
  {
    var full := (if useBase then base + [SEPARATOR] else "") + name;
    assert (if useBase then base + [SEPARATOR] + name else name) == full;
    assert (if useBase then base + [SEPARATOR] + (name + [SEPARATOR] + specific) else name + [SEPARATOR] + specific)
           == full + [SEPARATOR] + specific;
    LowerConcat(full + [SEPARATOR], specific);
    LowerConcat(full, [SEPARATOR]);
  }

  /** The specific name starts with the permission's name and a separator and ends with the
      lower-cased node; it is lower-case when the name is. */
  lemma SpecificNameShape(p: Perm, specific: string)
    ensures var r := GetSpecificName(p, specific);
            StartsWith(r, p.name + [SEPARATOR]) && r[|p.name| + 1..] == ToLower(specific)
    ensures IsLowerCase(p.name) ==> IsLowerCase(GetSpecificName(p, specific))
  {
    var r := GetSpecificName(p, specific);
    assert r[..|p.name| + 1] == p.name + [SEPARATOR];
    LowerConcat(p.name + [SEPARATOR], ToLower(specific));
    LowerConcat(p.name, [SEPARATOR]);
    LowerIdempotent(specific);
  }

  /** Checking without a node is refused exactly for a specific-only permission, and otherwise
      asks about the permission's own name. */
  lemma SpecificOnlyChecks(p: Perm, permissible: string -> bool)
    ensures HasPermission(p, permissible).Failure? <==> p.specificOnly
    ensures HasPermission(p, permissible).Success? ==> HasPermission(p, permissible).value == permissible(p.name)
  {
  }
}
