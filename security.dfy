/** The default security rules (`peak/security/rules.py`): which permission
    an object or one of its attributes needs, whether a permission is held,
    and the `Denial` value that stands for a refusal. Rules are generic
    functions in PEAK; the model keeps the default rules and the rules that
    permission declarations add, with the declarations as data. */
module Security {
  import opened Base

  /** A permission: `Anybody`, `Nobody`, or a permission class the
      application declares, by name. */
  datatype Permission = Anybody | Nobody | Needs(name: string)

  /** What `hasPermission` returns: `True`, or a `Denial` with its message. */
  datatype Check = Granted | Denial(message: string)

  /** `bool(check)`: a denial is always false. */
  predicate Truth(c: Check)
  {
    c.Granted?
  }

  /** `len(denial)`, which is `__nonzero__`'s result as a number. */
  function DenialLen(c: Check): nat
    requires c.Denial?
  {
    if Truth(c) then 1 else 0
  }

  /** `str(denial)`. */
  function DenialStr(c: Check): string
    requires c.Denial?
  {
    c.message
  }

  lemma DenialProperties(message: string)
    ensures !Truth(Denial(message))
    ensures DenialLen(Denial(message)) == 0
    ensures DenialStr(Denial(message)) == message
  {
  }

  /** The declarations made through the binding metadata API: a class's
      own existence permission, and permissions for named attributes. */
  datatype Declarations = Declarations(classPerm: map<string, Permission>, attrPerm: map<(string, string), Permission>)

  /** The permission of the most specific class, `mro` listed from the
      subject's own class to its furthest base, that declares one. */
  function FirstDeclared(mro: seq<string>, m: map<string, Permission>): (r: Option<Permission>)
    ensures r.None? <==> forall i :: 0 <= i < |mro| ==> mro[i] !in m
    ensures r.Some? ==> exists i ::
      0 <= i < |mro| && mro[i] in m && r.value == m[mro[i]] && forall j :: 0 <= j < i ==> mro[j] !in m
  {
    if mro == [] then None
    else if mro[0] in m then Some(m[mro[0]])
    else
      var r := FirstDeclared(mro[1..], m);
      assert forall j :: 0 <= j < |mro| - 1 ==> mro[1..][j] == mro[j + 1];
      r
  }

  /** The attribute declarations of `attr`, indexed by class. */
  function AttrDecls(d: Declarations, attr: string): (m: map<string, Permission>)
    ensures forall c :: c in m <==> (c, attr) in d.attrPerm
    ensures forall c :: c in m ==> m[c] == d.attrPerm[(c, attr)]
  {
    map k | k in d.attrPerm && k.1 == attr :: k.0 := d.attrPerm[k]
  }

  /** `permissionFor(subject, name)` for a subject whose classes are `mro`.
      Without a name the answer is the declared existence permission, or
      `Anybody`; for an attribute, its declared permission, or `None`. */
  function PermissionFor(d: Declarations, mro: seq<string>, name: Option<string>): (r: Option<Permission>)
    ensures name.None? ==> r.Some?
  {
    match name
    case None =>
      var p := FirstDeclared(mro, d.classPerm);
      if p.Some? then p else Some(Anybody)
    case Some(attr) => FirstDeclared(mro, AttrDecls(d, attr))
  }

  /** `hasPermission(user, perm, subject)`. The default rules do not look at
      the user or the subject; `appRule` is what the application's own rules
      answer for a declared permission class, if they answer. */
  function HasPermission(perm: Option<Permission>, appRule: Option<Check>): (r: Check)
    ensures r == Granted ==> perm == Some(Anybody) || (perm.Some? && perm.value.Needs? && appRule == Some(Granted))
    ensures perm.None? || perm == Some(Nobody) ==> r.Denial?
  {
    match perm
    case Some(Anybody) => Granted
    case Some(Nobody) => Denial("Access forbidden")
    case Some(Needs(_)) => if appRule.Some? then appRule.value else Denial("Access denied.")
    case None => Denial("Access denied.")
  }

  /** The default `permissionFor` rules. */
  lemma PermissionForDefaults(d: Declarations, mro: seq<string>, attr: string)
    ensures (forall i :: 0 <= i < |mro| ==> mro[i] !in d.classPerm) ==> PermissionFor(d, mro, None) == Some(Anybody)
    ensures (forall i :: 0 <= i < |mro| ==> (mro[i], attr) !in d.attrPerm) ==> PermissionFor(d, mro, Some(attr)) == None
  {
  }

  /** A permission declared on the subject's own class, for the class or for
      an attribute, is what `permissionFor` returns. */
  lemma DeclaredPermission(d: Declarations, cls: string, bases: seq<string>, attr: string)
    ensures cls in d.classPerm ==> PermissionFor(d, [cls] + bases, None) == Some(d.classPerm[cls])
    ensures (cls, attr) in d.attrPerm ==> PermissionFor(d, [cls] + bases, Some(attr)) == Some(d.attrPerm[(cls, attr)])
  {
  }

  /** A declaration on a base class is inherited when no subclass between
      overrides it. */
  lemma InheritedPermission(d: Declarations, mro: seq<string>, i: int, attr: string)
    requires 0 <= i < |mro| && (mro[i], attr) in d.attrPerm
    requires forall j :: 0 <= j < i ==> (mro[j], attr) !in d.attrPerm
    ensures PermissionFor(d, mro, Some(attr)) == Some(d.attrPerm[(mro[i], attr)])
  {
    var r := PermissionFor(d, mro, Some(attr));
    var k :| 0 <= k < |mro| && mro[k] in AttrDecls(d, attr) && r.value == AttrDecls(d, attr)[mro[k]] &&
      forall j :: 0 <= j < k ==> mro[j] !in AttrDecls(d, attr);
    assert mro[i] in AttrDecls(d, attr);
  }

  /** The default `hasPermission` rules: `Anybody` is always granted,
      `Nobody` and an undeclared permission never are. */
  lemma HasPermissionRules(appRule: Option<Check>)
    ensures Truth(HasPermission(Some(Anybody), appRule))
    ensures HasPermission(Some(Nobody), appRule) == Denial("Access forbidden")
    ensures HasPermission(None, appRule) == Denial("Access denied.")
    ensures HasPermission(Some(Needs("x")), None) == Denial("Access denied.")
    ensures forall p :: p != Some(Anybody) && (p.Some? && p.value.Needs? ==> appRule == None) ==>
      !Truth(HasPermission(p, appRule))
  {
  }

  /** An attribute no class declares can never be accessed, and an object
      with no declarations can always be seen. */
  lemma DefaultAccess(d: Declarations, mro: seq<string>, attr: string, appRule: Option<Check>)
    requires forall i :: 0 <= i < |mro| ==> mro[i] !in d.classPerm && (mro[i], attr) !in d.attrPerm
    ensures Truth(HasPermission(PermissionFor(d, mro, None), appRule))
    ensures HasPermission(PermissionFor(d, mro, Some(attr)), appRule) == Denial("Access denied.")
  {
    PermissionForDefaults(d, mro, attr);
  }
}
