/**
 * What the pool's injecting pass does to the classes, stated as functions
 * of the pool's cache: replacing a destination field, choosing the
 * destination method and editing its body, and running a destination's
 * pending directives in order.
 */
module Injection {
  import opened Strings
  import opened ClassModel
  import opened Directives
  import opened Util
  import opened Snippets
  import opened Matching

  // ---------------------------------------------------------------------
  // injectField

  /** The first field with that name. */
  function FieldIndex(fields: seq<CtField>, name: string): (r: Option<nat>)
    ensures r.Some? ==> r.value < |fields| && fields[r.value].name == name
    ensures r.Some? ==> forall k :: 0 <= k < r.value ==> fields[k].name != name
    ensures r.None? ==> forall k :: 0 <= k < |fields| ==> fields[k].name != name
  {
    if fields == [] then None
    else if fields[0].name == name then Some(0)
    else match FieldIndex(fields[1..], name)
      case None => None
      case Some(k) => Some(k + 1)
  }

  function CountNamed(fields: seq<CtField>, name: string): nat {
    if fields == [] then 0 else (if fields[0].name == name then 1 else 0) + CountNamed(fields[1..], name)
  }

  lemma {:induction false} CountNamedSplit(a: seq<CtField>, b: seq<CtField>, name: string)
    ensures CountNamed(a + b, name) == CountNamed(a, name) + CountNamed(b, name)
    decreases |a|
  {
    if a == [] {
      assert a + b == b;
    } else {
      assert (a + b)[1..] == a[1..] + b;
      assert (a + b)[0] == a[0];
      assert CountNamed(a + b, name) == (if a[0].name == name then 1 else 0) + CountNamed((a + b)[1..], name);
      CountNamedSplit(a[1..], b, name);
    }
  }

  function RemoveAt<T>(s: seq<T>, i: nat): (r: seq<T>)
    requires i < |s|
    ensures |r| == |s| - 1
  {
    s[..i] + s[i + 1..]
  }

  /**
   * The static initializer with every access to the field made an empty
   * block (`{}`), so it no longer assigns the value being replaced.
   */
  function Neutralize(stmts: seq<InitStmt>, name: string): (r: seq<InitStmt>)
    ensures |r| == |stmts|
    ensures forall k :: 0 <= k < |r| ==> r[k] == if stmts[k] == FieldAccess(name) then Emptied else stmts[k]
  {
    if stmts == [] then []
    else [if stmts[0] == FieldAccess(name) then Emptied else stmts[0]] + Neutralize(stmts[1..], name)
  }

  function NeutralizedInitializer(init: Option<seq<InitStmt>>, name: string): Option<seq<InitStmt>> {
    match init
    case None => None
    case Some(stmts) => Some(Neutralize(stmts, name))
  }

  /**
   * `addFieldByCopy`: the old field again, initialised with the constant,
   * which also becomes its constant value; no field for other kinds.
   */
  function CopiedField(field: CtField, lit: Literal): Option<CtField> {
    if lit.OtherLit? then None else Some(field.(init := Constant(lit), constantValue := Some(lit)))
  }

  /** `addFieldWithType`: the field compiled from the declaration text. */
  function MadeField(field: CtField, fieldClassName: Option<string>, value: Option<Literal>): CtField {
    CtField(field.name, DeclaredType(field, fieldClassName), KeptModifier(field.modifiers), None, None,
      MadeFrom(FieldDeclaration(field, fieldClassName, value)))
  }

  /** The field added in place of the removed one `field`, if any. */
  function Replacement(field: CtField, item: InsertInfo): Option<CtField>
    requires item.srcField.Some?
  {
    var value := item.srcField.value.constantValue;
    if (item.srcFieldType.None? || item.srcFieldType.value == "") && value.Some? then CopiedField(field, value.value)
    else Some(MadeField(field, item.srcFieldType, value))
  }

  function OptionList(o: Option<CtField>): seq<CtField> {
    match o
    case None => []
    case Some(f) => [f]
  }

  /** The destination class after the field directive. */
  function FieldInjected(target: CtClass, item: InsertInfo): CtClass
    requires item.srcField.Some?
  {
    var name := item.srcField.value.name;
    match FieldIndex(target.declaredFields, name)
    case None => target
    case Some(i) =>
      target.(
        declaredFields := RemoveAt(target.declaredFields, i) + OptionList(Replacement(target.declaredFields[i], item)),
        classInitializer := NeutralizedInitializer(target.classInitializer, name))
  }

  /**
   * The replacement keeps the replaced field's name. With no type override
   * and a constant value, it is the old field with the source's constant,
   * or nothing when the constant is of none of the six handled kinds;
   * otherwise it is compiled from a declaration naming the override type
   * (or the old type) with only the first of the old modifiers.
   */
  lemma ReplacementForms(field: CtField, item: InsertInfo)
    requires item.srcField.Some?
    ensures Replacement(field, item).Some? ==> Replacement(field, item).value.name == field.name
    ensures var value := item.srcField.value.constantValue;
      (item.srcFieldType.None? || item.srcFieldType.value == "") && value.Some? ==>
        (Replacement(field, item).None? <==> value.value.OtherLit?)
        && (Replacement(field, item).Some? ==>
              Replacement(field, item).value == field.(init := Constant(value.value), constantValue := Some(value.value)))
    ensures var value := item.srcField.value.constantValue;
      !((item.srcFieldType.None? || item.srcFieldType.value == "") && value.Some?) ==>
        && Replacement(field, item).Some?
        && Replacement(field, item).value.typeName == (if item.srcFieldType.Some? && item.srcFieldType.value != "" then item.srcFieldType.value else field.typeName)
        && Replacement(field, item).value.modifiers <= field.modifiers
        && |Replacement(field, item).value.modifiers| <= 1
        && Replacement(field, item).value.init.MadeFrom?
  {
  }

  /**
   * The field directive changes only the fields and the static
   * initializer, and nothing at all when the destination declares no field
   * of that name.
   */
  lemma FieldInjectedFrame(target: CtClass, item: InsertInfo)
    requires item.srcField.Some?
    ensures var r := FieldInjected(target, item);
      r == target.(declaredFields := r.declaredFields, classInitializer := r.classInitializer)
    ensures FieldIndex(target.declaredFields, item.srcField.value.name).None? ==> FieldInjected(target, item) == target
  {
  }

  /**
   * When the destination declares a field of that name: the first such
   * field is gone, the other fields stay in order, the replacement (if any)
   * comes last, so the count of fields with that name changes by the
   * replacement alone; and the static initializer no longer touches it.
   */
  lemma FieldInjectedEffect(target: CtClass, item: InsertInfo)
    requires item.srcField.Some?
    requires FieldIndex(target.declaredFields, item.srcField.value.name).Some?
    ensures var name := item.srcField.value.name; var r := FieldInjected(target, item);
      var i := FieldIndex(target.declaredFields, name).value;
      var repl := Replacement(target.declaredFields[i], item);
      && r.declaredFields[..|target.declaredFields| - 1] == RemoveAt(target.declaredFields, i)
      && CountNamed(r.declaredFields, name) == CountNamed(target.declaredFields, name) - 1 + |OptionList(repl)|
      && (repl.Some? ==> r.declaredFields[|r.declaredFields| - 1] == repl.value)
      && (r.classInitializer.Some? <==> target.classInitializer.Some?)
      && (r.classInitializer.Some? ==> FieldAccess(name) !in r.classInitializer.value)
  {
    var name := item.srcField.value.name;
    var fs := target.declaredFields;
    var i := FieldIndex(fs, name).value;
    var repl := Replacement(fs[i], item);
    var rest := RemoveAt(fs, i);
    var r := FieldInjected(target, item);
    assert r.declaredFields == rest + OptionList(repl);
    CountRemoveAt(fs, i, name);
    CountNamedSplit(rest, OptionList(repl), name);
    if repl.Some? {
      ReplacementForms(fs[i], item);
    }
    assert r.declaredFields[..|fs| - 1] == rest;
    if r.classInitializer.Some? {
      var stmts := r.classInitializer.value;
      assert forall k :: 0 <= k < |stmts| ==> stmts[k] != FieldAccess(name);
    }
  }

  lemma CountRemoveAt(fs: seq<CtField>, i: nat, name: string)
    requires i < |fs| && fs[i].name == name
    ensures CountNamed(RemoveAt(fs, i), name) == CountNamed(fs, name) - 1
  {
    assert fs == fs[..i] + ([fs[i]] + fs[i + 1..]);
    CountNamedSplit(fs[..i], [fs[i]] + fs[i + 1..], name);
    CountNamedSplit([fs[i]], fs[i + 1..], name);
    CountNamedSplit(fs[..i], fs[i + 1..], name);
  }

  // ---------------------------------------------------------------------
  // injectMethod: choosing the destination method

  /**
   * `isAnonymousInterfaceCall`: the annotation's target is an interface,
   * `m` is a lambda, and every interface method of the same shape has the
   * same parameters after `m`'s first. When no interface method has that
   * shape the test passes vacuously.
   */
  predicate IsAnonymousInterfaceCall(annTarget: CtClass, m: CtMethod) {
    && annTarget.isInterface
    && Contains(m.name, LAMBDA)
    && forall k :: 0 <= k < |annTarget.declaredMethods| && SameShape(annTarget.declaredMethods[k], m) ==>
         ParamsShifted(annTarget.declaredMethods[k].params, m.params)
  }

  /** `m` receives the directive: an anonymous-call lambda, or the named method with the source's parameter types. */
  predicate Selected(annTarget: CtClass, ann: Inject, src: CtMethod, m: CtMethod) {
    IsAnonymousInterfaceCall(annTarget, m) || (m.name == ann.name && m.params == src.params)
  }

  function FirstSelected(ms: seq<CtMethod>, annTarget: CtClass, ann: Inject, src: CtMethod): (r: Option<nat>)
    ensures r.Some? ==> r.value < |ms| && Selected(annTarget, ann, src, ms[r.value])
    ensures r.Some? ==> forall k :: 0 <= k < r.value ==> !Selected(annTarget, ann, src, ms[k])
    ensures r.None? ==> forall k :: 0 <= k < |ms| ==> !Selected(annTarget, ann, src, ms[k])
  {
    if ms == [] then None
    else if Selected(annTarget, ann, src, ms[0]) then Some(0)
    else match FirstSelected(ms[1..], annTarget, ann, src)
      case None => None
      case Some(k) => Some(k + 1)
  }

  // ---------------------------------------------------------------------
  // injectMethod: editing the body

  /** The class with the body of its k-th declared method replaced. */
  function WithBody(c: CtClass, k: nat, b: Body): (r: CtClass)
    requires k < |c.declaredMethods|
    ensures r.name == c.name && |r.declaredMethods| == |c.declaredMethods|
    ensures BodiesOnly(c, r) && r.declaredMethods[k].body == b
    ensures forall i :: 0 <= i < |c.declaredMethods| && i != k ==> r.declaredMethods[i] == c.declaredMethods[i]
  {
    c.(declaredMethods := c.declaredMethods[k := c.declaredMethods[k].(body := b)])
  }

  /** A second body edit of the same method overrides the first. */
  lemma WithBodyTwice(c: CtClass, k: nat, b1: Body, b2: Body)
    requires k < |c.declaredMethods|
    ensures WithBody(WithBody(c, k, b1), k, b2) == WithBody(c, k, b2)
  {
    assert WithBody(WithBody(c, k, b1), k, b2).declaredMethods == WithBody(c, k, b2).declaredMethods;
  }

  /** Setting a method's body to the one it has changes nothing. */
  lemma WithBodyCurrent(c: CtClass, k: nat)
    requires k < |c.declaredMethods|
    ensures WithBody(c, k, c.declaredMethods[k].body) == c
  {
    assert WithBody(c, k, c.declaredMethods[k].body).declaredMethods == c.declaredMethods;
  }

  /**
   * The selected method's new body: the source body copied over when no
   * call can be generated (rebinding `this` for a companion destination),
   * else replaced by the call, or the call inserted before or after the
   * current body. A `before` edit that went to the source-side twin leaves
   * the selected method alone.
   */
  function Placed(current: Body, src: CtMethod, code: string, ann: Inject, companion: bool, twinEdited: bool): Body {
    if code == "" then Copied(src.body, companion)
    else if ann.replace then Replaced(code)
    else if ann.before then (if twinEdited then current else Before(code, current))
    else After(current, code)
  }

  /** The body wrapped in a handler when a catch clause is configured. */
  function WithCatch(b: Body, catch: Option<string>): Body {
    if catch.Some? && catch.value != "" then Catch(b, catch.value) else b
  }

  /** The new body still runs the current one, with code before or after it. */
  predicate Wraps(b: Body, current: Body) {
    (b.Before? && b.rest == current) || (b.After? && b.rest == current)
  }

  /**
   * The current body survives, wrapped, exactly when a call was generated,
   * the annotation does not ask for replacement, and the code did not go
   * to the source-side twin instead.
   */
  lemma PlacedWraps(current: Body, src: CtMethod, code: string, ann: Inject, companion: bool, twinEdited: bool)
    ensures Wraps(Placed(current, src, code, ann, companion, twinEdited), current)
      <==> code != "" && !ann.replace && !(ann.before && twinEdited)
  {
    if code != "" && !ann.replace && ann.before && twinEdited {
      assert Placed(current, src, code, ann, companion, twinEdited) == current;
      assert !Wraps(current, current);
    }
  }

  /** `get(item.destClassName)`: a null destination is looked up as "null". */
  function ResolveDest(cache: map<string, CtClass>, paths: seq<ClassPath>, dest: Option<string>): (r: Result<CtClass>)
    ensures r.Err? <==> dest.None? || Resolve(cache, paths, dest.value).None?
  {
    match dest
    case None => Err(NotFound("null"))
    case Some(n) =>
      match Resolve(cache, paths, n)
      case None => Err(NotFound(n))
      case Some(c) => Ok(c)
  }

  /** The class the annotation names, looked up by `getInjectTargetClassName`. */
  function AnnotationTarget(cache: map<string, CtClass>, paths: seq<ClassPath>, item: InsertInfo): Option<CtClass>
    requires WellFormed(item) && item.srcMtd.Some?
  {
    Resolve(cache, paths, TargetClassName(item.srcMtd.value.inject.value))
  }

  /** The index of the destination method the directive goes to, if any. */
  function Selection(cache: map<string, CtClass>, paths: seq<ClassPath>, item: InsertInfo, target: CtClass): Option<nat>
    requires WellFormed(item) && item.srcMtd.Some?
  {
    match AnnotationTarget(cache, paths, item)
    case None => None
    case Some(annTarget) => FirstSelected(target.declaredMethods, annTarget, item.srcMtd.value.inject.value, item.srcMtd.value)
  }

  /** The chosen method's new body, given its current one. */
  function NewBody(current: Body, item: InsertInfo, code: string, twinEdited: bool): (b: Body)
    requires item.srcMtd.Some? && item.srcMtd.value.inject.Some?
    ensures item.catch.Some? && item.catch.value != "" ==> b.Catch?
  {
    var ann := item.srcMtd.value.inject.value;
    WithCatch(Placed(current, item.srcMtd.value, code, ann, EndsWith(TargetClassName(ann), KOTLIN_COMPANION_SUFFIX), twinEdited), item.catch)
  }

  /**
   * Placing `code` once the destination method `j`, the source class and
   * its twin method (for an interface directive) are known. Only method
   * bodies change, only in the destination and the source class; in the
   * destination only the chosen method changes unless the source class is
   * the destination; a configured catch clause wraps the new body.
   */
  function Placement(cache: map<string, CtClass>, item: InsertInfo, target: CtClass, j: nat, mtdCls: CtClass, twin: Option<nat>, code: string): (c: map<string, CtClass>)
    requires item.srcMtd.Some? && item.srcMtd.value.inject.Some? && j < |target.declaredMethods|
    requires mtdCls.name == target.name ==> mtdCls == target
    requires twin.Some? ==> twin.value < |mtdCls.declaredMethods|
    ensures cache.Keys <= c.Keys <= cache.Keys + {target.name, mtdCls.name} && target.name in c
    ensures forall n :: n in cache && n != target.name && n != mtdCls.name ==> c[n] == cache[n]
    ensures BodiesOnly(target, c[target.name])
    ensures mtdCls.name in c && mtdCls.name != target.name ==>
      BodiesOnly(mtdCls, c[mtdCls.name]) || (mtdCls.name in cache && c[mtdCls.name] == cache[mtdCls.name])
    ensures mtdCls.name != target.name ==> forall k :: 0 <= k < |target.declaredMethods| && k != j ==>
      c[target.name].declaredMethods[k] == target.declaredMethods[k]
    ensures item.catch.Some? && item.catch.value != "" ==> c[target.name].declaredMethods[j].body.Catch?
  {
    var ann := item.srcMtd.value.inject.value;
    var twinEdited := code != "" && !ann.replace && ann.before && twin.Some?;
    var edited := if twinEdited then WithBody(mtdCls, twin.value, Before(code, mtdCls.declaredMethods[twin.value].body)) else mtdCls;
    var t1 := if twinEdited && mtdCls.name == target.name then edited else target;
    var final := WithBody(t1, j, NewBody(t1.declaredMethods[j].body, item, code, twinEdited));
    BodiesOnlyTransitive(target, t1, final);
    var cache1 := if twinEdited then cache[mtdCls.name := edited] else cache;
    cache1[target.name := final]
  }

  /** The twin an interface directive also edits: the source class's method of that name and parameters. */
  function TwinIndex(item: InsertInfo, mtdCls: CtClass, m: CtMethod): Option<nat>
    requires WellFormed(item) && item.srcMtd.Some?
  {
    if item.isInterface then DeclaredMethodIndex(mtdCls.declaredMethods, m.name, item.param.value) else None
  }

  /**
   * The edit once the destination method `j` is chosen and the source
   * class `mtdCls` found: look up the twin of an interface directive,
   * generate the call, then place it.
   */
  function EditSelected(cache: map<string, CtClass>, item: InsertInfo, target: CtClass, j: nat, anon: bool, mtdCls: CtClass): Result<map<string, CtClass>>
    requires WellFormed(item) && item.srcMtd.Some? && j < |target.declaredMethods|
    requires mtdCls.name == target.name ==> mtdCls == target
  {
    var m := target.declaredMethods[j];
    var twin := TwinIndex(item, mtdCls, m);
    if item.isInterface && twin.None? then Err(NoSuchMethod(mtdCls.name, m.name))
    else Ok(Placement(cache, item, target, j, mtdCls, twin, CallSnippet(mtdCls, item.srcMtd.value, ArgsText(|m.params|, anon))))
  }

  /**
   * The method directive on the pool's cache. `target` is the destination
   * as the cache resolves it. The result is the new cache, or the lookup
   * that failed.
   */
  function MethodInjected(cache: map<string, CtClass>, paths: seq<ClassPath>, item: InsertInfo, target: CtClass): Result<map<string, CtClass>>
    requires WellFormed(item) && item.srcMtd.Some?
    requires WellNamedCache(cache) && Resolve(cache, paths, target.name) == Some(target)
  {
    match AnnotationTarget(cache, paths, item)
    case None => Err(NotFound(TargetClassName(item.srcMtd.value.inject.value)))
    case Some(annTarget) =>
      match Selection(cache, paths, item, target)
      case None => Ok(cache)
      case Some(j) =>
        match Resolve(cache, paths, item.srcClassName)
        case None => Err(NotFound(item.srcClassName))
        case Some(mtdCls) =>
          ResolveKeepsName(cache, paths, item.srcClassName);
          EditSelected(cache, item, target, j, IsAnonymousInterfaceCall(annTarget, target.declaredMethods[j]), mtdCls)
  }

  /** `b` differs from `a` at most in the bodies of its declared methods. */
  predicate BodiesOnly(a: CtClass, b: CtClass) {
    && b == a.(declaredMethods := b.declaredMethods)
    && |b.declaredMethods| == |a.declaredMethods|
    && forall k :: 0 <= k < |a.declaredMethods| ==> b.declaredMethods[k] == a.declaredMethods[k].(body := b.declaredMethods[k].body)
  }

  lemma BodiesOnlyTransitive(a: CtClass, b: CtClass, c: CtClass)
    requires BodiesOnly(a, b) && BodiesOnly(b, c)
    ensures BodiesOnly(a, c)
  {
  }

  /**
   * The method directive fails exactly on a lookup that fails: the
   * annotation's class, or once a method is chosen the source class or
   * (for an interface directive) the source's twin method. With no method
   * chosen nothing changes.
   */
  lemma MethodInjectedOutcome(cache: map<string, CtClass>, paths: seq<ClassPath>, item: InsertInfo, target: CtClass)
    requires WellFormed(item) && item.srcMtd.Some?
    requires WellNamedCache(cache) && Resolve(cache, paths, target.name) == Some(target)
    ensures AnnotationTarget(cache, paths, item).None? ==>
      MethodInjected(cache, paths, item, target) == Err(NotFound(TargetClassName(item.srcMtd.value.inject.value)))
    ensures AnnotationTarget(cache, paths, item).Some? && Selection(cache, paths, item, target).None? ==>
      MethodInjected(cache, paths, item, target) == Ok(cache)
    ensures Selection(cache, paths, item, target).Some? ==>
      (MethodInjected(cache, paths, item, target).Err? <==>
        Resolve(cache, paths, item.srcClassName).None?
        || (item.isInterface && DeclaredMethodIndex(Resolve(cache, paths, item.srcClassName).value.declaredMethods,
                                  target.declaredMethods[Selection(cache, paths, item, target).value].name, item.param.value).None?))
  {
  }

  /**
   * A method directive that succeeds changes only method bodies, and only
   * in the destination and the source class; the cache stays filed by name.
   */
  lemma MethodInjectedFrame(cache: map<string, CtClass>, paths: seq<ClassPath>, item: InsertInfo, target: CtClass)
    requires WellFormed(item) && item.srcMtd.Some?
    requires WellNamedCache(cache) && Resolve(cache, paths, target.name) == Some(target)
    ensures MethodInjected(cache, paths, item, target).Ok? ==>
      var c := MethodInjected(cache, paths, item, target).value;
      && WellNamedCache(c)
      && c.Keys <= cache.Keys + {target.name, item.srcClassName}
      && (forall n :: n in cache && n != target.name && n != item.srcClassName ==> c[n] == cache[n])
      && (forall n :: n in c ==> Resolve(cache, paths, n).Some? && BodiesOnly(Resolve(cache, paths, n).value, c[n]))
  {
    ResolveKeepsName(cache, paths, target.name);
    ResolveKeepsName(cache, paths, item.srcClassName);
    match AnnotationTarget(cache, paths, item)
    case None =>
    case Some(annTarget) =>
      match Selection(cache, paths, item, target)
      case None =>
      case Some(j) =>
        match Resolve(cache, paths, item.srcClassName)
        case None =>
        case Some(mtdCls) =>
          var anon := IsAnonymousInterfaceCall(annTarget, target.declaredMethods[j]);
          var m := target.declaredMethods[j];
          var twin := TwinIndex(item, mtdCls, m);
          if !(item.isInterface && twin.None?) {
            var code := CallSnippet(mtdCls, item.srcMtd.value, ArgsText(|m.params|, anon));
            var c := Placement(cache, item, target, j, mtdCls, twin, code);
            assert MethodInjected(cache, paths, item, target) == EditSelected(cache, item, target, j, anon, mtdCls) == Ok(c);
            PlacementFrame(cache, paths, item, target, j, mtdCls, twin, code);
          }
  }

  lemma PlacementFrame(cache: map<string, CtClass>, paths: seq<ClassPath>, item: InsertInfo, target: CtClass, j: nat, mtdCls: CtClass, twin: Option<nat>, code: string)
    requires item.srcMtd.Some? && item.srcMtd.value.inject.Some? && j < |target.declaredMethods|
    requires WellNamedCache(cache) && Resolve(cache, paths, target.name) == Some(target)
    requires Resolve(cache, paths, mtdCls.name) == Some(mtdCls)
    requires mtdCls.name == target.name ==> mtdCls == target
    requires twin.Some? ==> twin.value < |mtdCls.declaredMethods|
    ensures var c := Placement(cache, item, target, j, mtdCls, twin, code);
      && WellNamedCache(c)
      && (forall n :: n in c ==> Resolve(cache, paths, n).Some? && BodiesOnly(Resolve(cache, paths, n).value, c[n]))
  {
    var c := Placement(cache, item, target, j, mtdCls, twin, code);
    forall n | n in c
      ensures c[n].name == n
      ensures Resolve(cache, paths, n).Some? && BodiesOnly(Resolve(cache, paths, n).value, c[n])
    {
      if n != target.name && n != mtdCls.name {
        assert c[n] == cache[n];
      }
    }
  }

  // ---------------------------------------------------------------------
  // injectItem

  /** One directive on the cache: look up its destination, then weave its member. */
  function ApplyOne(cache: map<string, CtClass>, paths: seq<ClassPath>, item: InsertInfo): (r: Result<map<string, CtClass>>)
    requires WellFormed(item) && WellNamedCache(cache)
    ensures r.Ok? ==> WellNamedCache(r.value)
  {
    match ResolveDest(cache, paths, item.destClassName)
    case Err(f) => Err(f)
    case Ok(t) =>
      ResolveKeepsName(cache, paths, item.destClassName.value);
      if item.srcField.Some? then Ok(cache[t.name := FieldInjected(t, item)])
      else
        MethodInjectedFrame(cache, paths, item, t);
        MethodInjected(cache, paths, item, t)
  }

  /** The directives on the cache in list order, stopping at the first failure. */
  function ApplyAll(cache: map<string, CtClass>, paths: seq<ClassPath>, items: seq<InsertInfo>): (r: Result<map<string, CtClass>>)
    requires AllWellFormed(items) && WellNamedCache(cache)
    ensures r.Ok? ==> WellNamedCache(r.value)
    decreases |items|
  {
    if items == [] then Ok(cache)
    else
      var init := items[..|items| - 1];
      assert forall i :: 0 <= i < |init| ==> init[i] == items[i];
      match ApplyAll(cache, paths, init)
      case Err(f) => Err(f)
      case Ok(c) => ApplyOne(c, paths, items[|items| - 1])
  }

  /** The classes a directive may change: its destination and, for a method, its source class. */
  predicate Touches(item: InsertInfo, n: string) {
    item.destClassName == Some(n) || (item.srcMtd.Some? && item.srcClassName == n)
  }

  /** A pass changes no class that none of its directives touches. */
  lemma {:induction false} ApplyAllFrame(cache: map<string, CtClass>, paths: seq<ClassPath>, items: seq<InsertInfo>, n: string)
    requires AllWellFormed(items) && WellNamedCache(cache)
    requires forall i :: 0 <= i < |items| ==> !Touches(items[i], n)
    ensures ApplyAll(cache, paths, items).Ok? ==>
      (n in ApplyAll(cache, paths, items).value <==> n in cache)
      && (n in cache ==> ApplyAll(cache, paths, items).value[n] == cache[n])
    decreases |items|
  {
    if items != [] {
      var init := items[..|items| - 1];
      var item := items[|items| - 1];
      assert forall i :: 0 <= i < |init| ==> init[i] == items[i];
      ApplyAllFrame(cache, paths, init, n);
      var prev := ApplyAll(cache, paths, init);
      if prev.Ok? {
        var c := prev.value;
        match ResolveDest(c, paths, item.destClassName)
        case Err(_) =>
        case Ok(t) =>
          ResolveKeepsName(c, paths, item.destClassName.value);
          if item.srcMtd.Some? {
            MethodInjectedFrame(c, paths, item, t);
          }
      }
    }
  }

  /** The directives `injectItem` leaves in the list: those with neither a field nor a method. */
  function Pending(items: seq<InsertInfo>): (r: seq<InsertInfo>)
    ensures AllWellFormed(items) ==> r == []
    decreases |items|
  {
    if items == [] then []
    else
      var init := items[..|items| - 1];
      var last := items[|items| - 1];
      assert forall i :: 0 <= i < |init| ==> init[i] == items[i];
      Pending(init) + (if last.srcField.None? && last.srcMtd.None? then [last] else [])
  }

  /** The table after `injectItem(key)` has woven every directive. */
  function Consumed(tm: TargetMap, key: string): TargetMap {
    if key in tm && |tm[key]| > 0 then
      if Pending(tm[key]) == [] then tm - {key} else tm[key := Pending(tm[key])]
    else tm
  }

  /**
   * Each destination is woven at most once: consuming its directives
   * removes its key and leaves every other key as it was, and consuming
   * again changes nothing.
   */
  lemma ConsumedRemovesKey(tm: TargetMap, key: string)
    requires TableInvariant(tm)
    ensures key !in Consumed(tm, key)
    ensures Consumed(tm, key).Keys == tm.Keys - {key}
    ensures forall k :: k in tm && k != key ==> Consumed(tm, key)[k] == tm[k]
    ensures Consumed(Consumed(tm, key), key) == Consumed(tm, key)
    ensures TableInvariant(Consumed(tm, key))
  {
  }
}
