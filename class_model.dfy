/**
 * The compiled-class records the weaver reads and edits, as plain values:
 * classes, fields, methods, the `@Inject` annotation and method bodies.
 * Bodies are abstract: an edit is recorded as a constructor wrapping the
 * body it changes, never as bytecode. The class path is a list of roots,
 * each a table of class records by name, searched in the order appended.
 */
module ClassModel {
  import opened Strings

  datatype Option<T> = None | Some(value: T)

  /**
   * javassist's NotFoundException: from `ClassPool.get` for a class, from
   * `CtClass.getDeclaredMethod` for a method.
   */
  datatype Failure = NotFound(className: string) | NoSuchMethod(className: string, methodName: string)

  datatype Result<T> = Ok(value: T) | Err(failure: Failure)

  datatype Modifier =
    | Public | Protected | Private | Static | Final | Volatile | Transient
    | Synchronized | Abstract

  /**
   * The `@Inject` annotation. `target` is the class-valued member read from
   * the raw attribute, so it is absent when not written out; the string
   * members carry their declared defaults, so they are never null.
   */
  datatype Inject = Inject(
    target: Option<string>,
    classPath: string,
    name: string,
    replace: bool,
    before: bool,
    fieldClzName: string,
    addCatch: string)

  /**
   * The value `CtField.getConstantValue` boxes. `OtherLit` stands for any
   * kind outside the six the weaver handles.
   */
  datatype Literal =
    | IntLit(i: int)
    | LongLit(l: int)
    | FloatLit(ftext: string)
    | DoubleLit(dtext: string)
    | BoolLit(b: bool)
    | StringLit(s: string)
    | OtherLit(otext: string)

  /** How a field gets its value. */
  datatype FieldInit =
    | Declared                        // as compiled
    | Constant(value: Literal)        // added with a constant initializer
    | MadeFrom(declaration: string)   // compiled from Java declaration text

  datatype CtField = CtField(
    name: string,
    typeName: string,
    modifiers: set<Modifier>,
    constantValue: Option<Literal>,
    inject: Option<Inject>,
    init: FieldInit)

  /** A method body and the edits applied to it, outermost last. */
  datatype Body =
    | Original(id: string)
    | Copied(from: Body, thisRebound: bool)   // setBody(source method)
    | Replaced(code: string)                  // setBody(code)
    | Before(code: string, rest: Body)        // insertBefore(code)
    | After(rest: Body, code: string)         // insertAfter(code)
    | Catch(rest: Body, clause: string)       // addCatch(clause, Throwable)

  datatype CtMethod = CtMethod(
    name: string,
    params: seq<string>,
    returnType: string,
    modifiers: set<Modifier>,
    inject: Option<Inject>,
    body: Body)

  /** A statement of the static initializer; only field accesses matter. */
  datatype InitStmt = FieldAccess(field: string) | Emptied | OtherStmt(text: string)

  /**
   * A compiled class. `inheritedFields`/`inheritedMethods` are the
   * non-private members its superclasses contribute, as the lookup
   * resolves them.
   */
  datatype CtClass = CtClass(
    name: string,
    isInterface: bool,
    isKotlin: bool,
    interfaces: seq<string>,
    declaredFields: seq<CtField>,
    inheritedFields: seq<CtField>,
    declaredMethods: seq<CtMethod>,
    inheritedMethods: seq<CtMethod>,
    classInitializer: Option<seq<InitStmt>>)

  function NonPrivateFields(fs: seq<CtField>): (r: seq<CtField>)
    ensures forall f :: f in r <==> f in fs && Private !in f.modifiers
  {
    if fs == [] then []
    else (if Private in fs[0].modifiers then [] else [fs[0]]) + NonPrivateFields(fs[1..])
  }

  function NonPrivateMethods(ms: seq<CtMethod>): (r: seq<CtMethod>)
    ensures forall m :: m in r <==> m in ms && Private !in m.modifiers
  {
    if ms == [] then []
    else (if Private in ms[0].modifiers then [] else [ms[0]]) + NonPrivateMethods(ms[1..])
  }

  /** `CtClass.getFields()`: non-private fields, inherited ones included. */
  function Fields(c: CtClass): seq<CtField> {
    NonPrivateFields(c.declaredFields) + c.inheritedFields
  }

  /**
   * `CtClass.getMethods()`: non-private methods, inherited ones included,
   * declared ones first. javassist's own order (a hash map by signature,
   * with overridden methods merged) is not modelled.
   */
  function Methods(c: CtClass): seq<CtMethod> {
    NonPrivateMethods(c.declaredMethods) + c.inheritedMethods
  }

  /**
   * `CtClass.getDeclaredMethod(name, params)`: the first declared method
   * with that name and exactly those parameter types.
   */
  function DeclaredMethodIndex(ms: seq<CtMethod>, name: string, params: seq<string>): (r: Option<nat>)
    ensures r.Some? ==> r.value < |ms| && ms[r.value].name == name && ms[r.value].params == params
    ensures r.Some? ==> forall k :: 0 <= k < r.value ==> !(ms[k].name == name && ms[k].params == params)
    ensures r.None? ==> forall k :: 0 <= k < |ms| ==> !(ms[k].name == name && ms[k].params == params)
  {
    if ms == [] then None
    else if ms[0].name == name && ms[0].params == params then Some(0)
    else match DeclaredMethodIndex(ms[1..], name, params)
      case None => None
      case Some(k) => Some(k + 1)
  }

  /** A field or a method, as `CtMember`. */
  datatype CtMember = FieldMember(field: CtField) | MethodMember(mtd: CtMethod) {
    function Annotation(): Option<Inject> {
      match this
      case FieldMember(f) => f.inject
      case MethodMember(m) => m.inject
    }
  }

  // ---------------------------------------------------------------------
  // the class path and the pool's cache

  /** One appended search root: a directory or jar and the classes it holds. */
  datatype ClassPath = ClassPath(root: string, units: seq<CtClass>)

  /** The cache files every class under its own name. */
  ghost predicate WellNamedCache(cache: map<string, CtClass>) {
    forall n :: n in cache ==> cache[n].name == n
  }

  /** The first class of a root with the given name. */
  function FindInRoot(units: seq<CtClass>, name: string): (r: Option<CtClass>)
    ensures r.Some? ==> r.value in units && r.value.name == name
    ensures r.None? <==> forall k :: 0 <= k < |units| ==> units[k].name != name
  {
    if units == [] then None
    else if units[0].name == name then Some(units[0])
    else
      var r := FindInRoot(units[1..], name);
      assert forall k :: 1 <= k < |units| ==> units[k] == units[1..][k - 1];
      r
  }

  function FindOnPath(paths: seq<ClassPath>, name: string): Option<CtClass> {
    if paths == [] then None
    else if FindInRoot(paths[0].units, name).Some? then FindInRoot(paths[0].units, name)
    else FindOnPath(paths[1..], name)
  }

  /** `ClassPool.get(name)`: the cached class if any, else the first root that has it. */
  function Resolve(cache: map<string, CtClass>, paths: seq<ClassPath>, name: string): Option<CtClass> {
    if name in cache then Some(cache[name]) else FindOnPath(paths, name)
  }

  /**
   * An uncached class comes from the earliest root holding a class of that
   * name, and a lookup returns a class carrying the name asked for.
   */
  lemma {:induction false} FindOnPathFirstRoot(paths: seq<ClassPath>, name: string)
    ensures FindOnPath(paths, name).Some? <==> exists k :: 0 <= k < |paths| && FindInRoot(paths[k].units, name).Some?
    ensures FindOnPath(paths, name).Some? ==>
      exists k :: 0 <= k < |paths| && FindOnPath(paths, name) == FindInRoot(paths[k].units, name)
        && forall j :: 0 <= j < k ==> FindInRoot(paths[j].units, name).None?
    ensures FindOnPath(paths, name).Some? ==> FindOnPath(paths, name).value.name == name
    decreases |paths|
  {
    if paths != [] && FindInRoot(paths[0].units, name).None? {
      FindOnPathFirstRoot(paths[1..], name);
      assert forall k :: 1 <= k < |paths| ==> paths[k] == paths[1..][k - 1];
      if FindOnPath(paths, name).Some? {
        var k :| 0 <= k < |paths[1..]| && FindOnPath(paths[1..], name) == FindInRoot(paths[1..][k].units, name)
          && forall j :: 0 <= j < k ==> FindInRoot(paths[1..][j].units, name).None?;
        assert FindOnPath(paths, name) == FindInRoot(paths[k + 1].units, name);
      }
    } else if paths != [] {
      assert FindOnPath(paths, name) == FindInRoot(paths[0].units, name);
    }
  }

  lemma ResolveKeepsName(cache: map<string, CtClass>, paths: seq<ClassPath>, name: string)
    requires WellNamedCache(cache)
    ensures Resolve(cache, paths, name).Some? ==> Resolve(cache, paths, name).value.name == name
  {
    if name !in cache {
      FindOnPathFirstRoot(paths, name);
    }
  }
}
