/**
 * What the pool's collecting and preparing passes do to the table of
 * pending directives (`targetMap`), stated as functions of the table:
 * filing annotated members under their destination, redirecting
 * directives aimed at an interface to an implementation of it, and
 * recognising a compiled lambda that stands for an anonymous implementation.
 */
module Matching {
  import opened Strings
  import opened ClassModel
  import opened Directives
  import opened Util

  /** The marker javac puts in the name of the method that holds a lambda body. */
  // The marker itself is defined outside this model; no proof depends on its value.
  const LAMBDA := "lambda$"

  /** `targetMap`: destination class name to its pending directives. */
  type TargetMap = map<string, seq<InsertInfo>>

  /** Every key has a non-empty list of well-formed directives. */
  ghost predicate TableInvariant(tm: TargetMap) {
    forall k :: k in tm ==> |tm[k]| > 0 && AllWellFormed(tm[k])
  }

  predicate AllWellFormed(list: seq<InsertInfo>) {
    forall i :: 0 <= i < |list| ==> WellFormed(list[i])
  }

  /** No directive of the list is an interface copy. */
  predicate AllDirect(list: seq<InsertInfo>) {
    forall i :: 0 <= i < |list| ==> !list[i].isInterface
  }

  /** No directive of the table is an interface copy, so none can reach `injectMethod`'s twin branch. */
  ghost predicate NoInterfaceCopies(tm: TargetMap) {
    forall k :: k in tm ==> AllDirect(tm[k])
  }

  function Get(tm: TargetMap, key: string): seq<InsertInfo> {
    if key in tm then tm[key] else []
  }

  // ---------------------------------------------------------------------
  // traverseMembers

  /**
   * The key a directive is filed under: the annotation's destination, with
   * a Kotlin companion suffix removed for fields (a companion's field is
   * compiled into the outer class).
   */
  function DestKey(a: Inject, isField: bool): string {
    var t := TargetClassName(a);
    if isField && EndsWith(t, KOTLIN_COMPANION_SUFFIX) then RemoveAll(t, KOTLIN_COMPANION_SUFFIX) else t
  }

  /**
   * A field aimed at `Outer$Companion` is filed under `Outer`; a method
   * keeps the companion as its destination; anything else is filed under
   * the annotation's own destination.
   */
  lemma DestKeyCompanion(a: Inject, isField: bool, outer: string)
    requires TargetClassName(a) == outer + KOTLIN_COMPANION_SUFFIX && !Contains(outer, KOTLIN_COMPANION_SUFFIX)
    ensures DestKey(a, isField) == if isField then outer else outer + KOTLIN_COMPANION_SUFFIX
  {
    if isField {
      assert KOTLIN_COMPANION_SUFFIX[1..] == "Companion";
      RemoveAllTrailing(outer, KOTLIN_COMPANION_SUFFIX);
    }
  }

  /** The directive built for an annotated member of class `ctClassName`. */
  function NewInfo(ctClassName: string, member: CtMember, key: string): (info: InsertInfo)
    requires member.Annotation().Some?
    ensures WellFormed(info) && !info.isInterface && info.destClassName == Some(key)
  {
    var a := member.Annotation().value;
    InsertInfo(
      ctClassName,
      if member.FieldMember? then Some(member.field) else None,
      if member.MethodMember? then Some(member.mtd) else None,
      if member.MethodMember? then Some(member.mtd.params) else None,
      Some(key),
      Some(a.fieldClzName),
      Some(a.addCatch),
      false)
  }

  /** The directive one member contributes under `key`, if any. */
  function Contribution(ctClassName: string, member: CtMember, isField: bool, key: string): seq<InsertInfo> {
    match member.Annotation()
    case None => []
    case Some(a) => if DestKey(a, isField) == key then [NewInfo(ctClassName, member, key)] else []
  }

  /** One member's effect on the table. */
  function Collect(tm: TargetMap, ctClassName: string, member: CtMember, isField: bool): TargetMap {
    match member.Annotation()
    case None => tm
    case Some(a) =>
      var key := DestKey(a, isField);
      tm[key := Get(tm, key) + [NewInfo(ctClassName, member, key)]]
  }

  /** The members' effect, in the order given. */
  function Collected(tm: TargetMap, ctClassName: string, members: seq<CtMember>, isField: bool): (r: TargetMap)
    ensures TableInvariant(tm) ==> TableInvariant(r)
    ensures NoInterfaceCopies(tm) ==> NoInterfaceCopies(r)
    decreases |members|
  {
    if members == [] then tm
    else Collect(Collected(tm, ctClassName, members[..|members| - 1], isField), ctClassName, members[|members| - 1], isField)
  }

  /** Reference reading: the directives the members contribute under `key`, in order. */
  function NewInfosFor(ctClassName: string, members: seq<CtMember>, isField: bool, key: string): seq<InsertInfo>
    decreases |members|
  {
    if members == [] then []
    else NewInfosFor(ctClassName, members[..|members| - 1], isField, key)
         + Contribution(ctClassName, members[|members| - 1], isField, key)
  }

  /**
   * Collecting appends: every key keeps the directives it had, followed by
   * one new directive per annotated member aimed at it, in member order; a
   * key appears only when it was there already or some member aims at it.
   */
  lemma {:induction false} CollectedAppends(tm: TargetMap, ctClassName: string, members: seq<CtMember>, isField: bool, key: string)
    ensures Get(Collected(tm, ctClassName, members, isField), key) == Get(tm, key) + NewInfosFor(ctClassName, members, isField, key)
    ensures key in Collected(tm, ctClassName, members, isField) <==> key in tm || NewInfosFor(ctClassName, members, isField, key) != []
    decreases |members|
  {
    if members != [] {
      var init := members[..|members| - 1];
      CollectedAppends(tm, ctClassName, init, isField, key);
    }
  }

  /** Some member of the list carries the annotation. */
  predicate AnyAnnotated(members: seq<CtMember>) {
    exists k :: 0 <= k < |members| && members[k].Annotation().Some?
  }

  /** The key under which a class file is marked: its path, else its jar entry. */
  function MarkerKey(file: Option<string>, entryName: Option<string>): Option<string> {
    if file.Some? then file else entryName
  }

  // ---------------------------------------------------------------------
  // redirection of a directive to another destination

  /** A copy of a directive aimed at `implName`, with the given interface flag. */
  function Copy(info: InsertInfo, implName: string, isInterface: bool): (r: InsertInfo)
    ensures WellFormed(info) ==> WellFormed(r)
  {
    info.(destClassName := Some(implName), isInterface := isInterface)
  }

  /**
   * One redirection of a key's list: a single directive is re-aimed in
   * place; otherwise a copy of the first directive is appended.
   */
  function RetargetOnce(list: seq<InsertInfo>, implName: string, isInterface: bool): (r: seq<InsertInfo>)
    requires |list| > 0
    ensures |r| > 0
    ensures AllWellFormed(list) ==> AllWellFormed(r)
    ensures !isInterface && AllDirect(list) ==> AllDirect(r)
  {
    if |list| == 1 then [Retargeted(list[0], implName)] else list + [Copy(list[0], implName, isInterface)]
  }

  function RetargetTimes(list: seq<InsertInfo>, implName: string, isInterface: bool, n: nat): (r: seq<InsertInfo>)
    requires |list| > 0
    ensures |r| > 0
    ensures AllWellFormed(list) ==> AllWellFormed(r)
    ensures !isInterface && AllDirect(list) ==> AllDirect(r)
  {
    if n == 0 then list else RetargetOnce(RetargetTimes(list, implName, isInterface, n - 1), implName, isInterface)
  }

  /** Redirecting a times and then b times is redirecting a + b times. */
  lemma {:induction false} RetargetTimesAdd(list: seq<InsertInfo>, implName: string, isInterface: bool, a: nat, b: nat)
    requires |list| > 0
    ensures RetargetTimes(RetargetTimes(list, implName, isInterface, a), implName, isInterface, b)
         == RetargetTimes(list, implName, isInterface, a + b)
    decreases b
  {
    if b > 0 {
      RetargetTimesAdd(list, implName, isInterface, a, b - 1);
    }
  }

  /**
   * n redirections of a list: a lone directive is re-aimed (once or many
   * times, the same result); a longer list keeps its directives and gains
   * n identical copies of the first, never merged.
   */
  lemma {:induction false} RetargetTimesClosedForm(list: seq<InsertInfo>, implName: string, isInterface: bool, n: nat)
    requires |list| > 0 && n > 0
    ensures |list| == 1 ==> RetargetTimes(list, implName, isInterface, n) == [Retargeted(list[0], implName)]
    ensures |list| > 1 ==>
      var r := RetargetTimes(list, implName, isInterface, n);
      && |r| == |list| + n
      && r[..|list|] == list
      && forall k :: |list| <= k < |r| ==> r[k] == Copy(list[0], implName, isInterface)
  {
    if n > 1 {
      RetargetTimesClosedForm(list, implName, isInterface, n - 1);
      if |list| > 1 {
        var prev := RetargetTimes(list, implName, isInterface, n - 1);
        assert prev[0] == list[0];
      }
    }
  }

  // ---------------------------------------------------------------------
  // anonymousInterfaceCallCheck

  /** `t` takes one leading parameter more than `m`, and then the same ones. */
  predicate ParamsShifted(mParams: seq<string>, tParams: seq<string>) {
    |tParams| == |mParams| + 1 && forall i :: 0 <= i < |mParams| ==> mParams[i] == tParams[i + 1]
  }

  /** Same return type and exactly one parameter more, as compared before the parameter scan. */
  predicate SameShape(m: CtMethod, t: CtMethod) {
    m.returnType == t.returnType && |m.params| == |t.params| - 1
  }

  /** The lambda `t` of a class implements interface method `m`. */
  predicate LambdaMatch(m: CtMethod, t: CtMethod) {
    Contains(t.name, LAMBDA) && SameShape(m, t) && ParamsShifted(m.params, t.params)
  }

  /** The number of lambdas among `ts` that match `m`. */
  function RowMatches(m: CtMethod, ts: seq<CtMethod>): nat
    decreases |ts|
  {
    if ts == [] then 0
    else RowMatches(m, ts[..|ts| - 1]) + (if LambdaMatch(m, ts[|ts| - 1]) then 1 else 0)
  }

  /** The number of (interface method, lambda) pairs that match. */
  function MatchCount(ms: seq<CtMethod>, ts: seq<CtMethod>): nat
    decreases |ms|
  {
    if ms == [] then 0
    else MatchCount(ms[..|ms| - 1], ts) + RowMatches(ms[|ms| - 1], ts)
  }

  lemma {:induction false} RowMatchesPositive(m: CtMethod, ts: seq<CtMethod>)
    ensures RowMatches(m, ts) > 0 <==> exists j :: 0 <= j < |ts| && LambdaMatch(m, ts[j])
    decreases |ts|
  {
    if ts != [] {
      var init := ts[..|ts| - 1];
      RowMatchesPositive(m, init);
      assert forall j :: 0 <= j < |init| ==> init[j] == ts[j];
    }
  }

  /** Some pair matches exactly when the count is positive. */
  lemma {:induction false} MatchCountPositive(ms: seq<CtMethod>, ts: seq<CtMethod>)
    ensures MatchCount(ms, ts) > 0 <==>
      exists i, j :: 0 <= i < |ms| && 0 <= j < |ts| && LambdaMatch(ms[i], ts[j])
    decreases |ms|
  {
    if ms != [] {
      var init := ms[..|ms| - 1];
      MatchCountPositive(init, ts);
      RowMatchesPositive(ms[|ms| - 1], ts);
      assert forall i :: 0 <= i < |init| ==> init[i] == ms[i];
    }
  }

  /** A key's list after the check, given its resolved destination. */
  function LambdaChecked(list: seq<InsertInfo>, dest: CtClass, cls: CtClass): (r: seq<InsertInfo>)
    requires |list| > 0
    ensures |r| > 0
  {
    if dest.isInterface then RetargetTimes(list, cls.name, false, MatchCount(dest.declaredMethods, cls.declaredMethods))
    else list
  }

  /** Some lambda of `cls` implements a method of the interface `dest`. */
  predicate LambdaImplements(dest: CtClass, cls: CtClass) {
    dest.isInterface && MatchCount(dest.declaredMethods, cls.declaredMethods) > 0
  }

  ghost predicate AllResolvable(tm: TargetMap, cache: map<string, CtClass>, paths: seq<ClassPath>) {
    forall k :: k in tm ==> Resolve(cache, paths, k).Some?
  }

  /** The whole table after the check. */
  function LambdaCheckedMap(tm: TargetMap, cache: map<string, CtClass>, paths: seq<ClassPath>, cls: CtClass): (r: TargetMap)
    requires forall k :: k in tm ==> |tm[k]| > 0
    ensures r.Keys == tm.Keys
    ensures NoInterfaceCopies(tm) ==> NoInterfaceCopies(r)
  {
    map k | k in tm ::
      if Resolve(cache, paths, k).Some? then LambdaChecked(tm[k], Resolve(cache, paths, k).value, cls) else tm[k]
  }

  /** The key `k` names an interface one of whose methods a lambda of `cls` implements. */
  predicate LambdaKey(tm: TargetMap, cache: map<string, CtClass>, paths: seq<ClassPath>, cls: CtClass, k: string) {
    k in tm && Resolve(cache, paths, k).Some? && LambdaImplements(Resolve(cache, paths, k).value, cls)
  }

  lemma LambdaCheckedMapInvariant(tm: TargetMap, cache: map<string, CtClass>, paths: seq<ClassPath>, cls: CtClass)
    requires TableInvariant(tm)
    ensures TableInvariant(LambdaCheckedMap(tm, cache, paths, cls))
  {
  }

  // ---------------------------------------------------------------------
  // injectPrepare's search among the implemented interfaces

  /** `ctClass.interfaces`: every named interface resolved, or failure. */
  function ResolveAll(cache: map<string, CtClass>, paths: seq<ClassPath>, names: seq<string>): (r: Option<seq<CtClass>>)
    ensures r.Some? <==> forall k :: 0 <= k < |names| ==> Resolve(cache, paths, names[k]).Some?
    ensures r.Some? ==> |r.value| == |names| && forall k :: 0 <= k < |names| ==> Some(r.value[k]) == Resolve(cache, paths, names[k])
    decreases |names|
  {
    if names == [] then Some([])
    else
      var last := Resolve(cache, paths, names[|names| - 1]);
      var init := ResolveAll(cache, paths, names[..|names| - 1]);
      if init.Some? && last.Some? then Some(init.value + [last.value]) else None
  }

  /** The first interface that is a key of the table. */
  function FirstKeyed(ifaces: seq<CtClass>, tm: TargetMap): (r: Option<nat>)
    ensures r.Some? ==> r.value < |ifaces| && ifaces[r.value].name in tm
    ensures r.Some? ==> forall k :: 0 <= k < r.value ==> ifaces[k].name !in tm
    ensures r.None? ==> forall k :: 0 <= k < |ifaces| ==> ifaces[k].name !in tm
  {
    if ifaces == [] then None
    else if ifaces[0].name in tm then Some(0)
    else match FirstKeyed(ifaces[1..], tm)
      case None => None
      case Some(k) => Some(k + 1)
  }

  // ---------------------------------------------------------------------
  // interfaceProcess

  /** Some method the interface declares has a namesake among the class's methods. */
  predicate SharesMethodName(iface: CtClass, impl: CtClass) {
    exists i, j :: 0 <= i < |iface.declaredMethods| && 0 <= j < |Methods(impl)|
      && iface.declaredMethods[i].name == Methods(impl)[j].name
  }

  /**
   * The interface's list after processing: redirected once to the
   * implementation (a copy flagged as an interface directive) when they
   * share a method name, unchanged otherwise.
   */
  function InterfaceProcessed(tm: TargetMap, impl: CtClass, iface: CtClass): (r: TargetMap)
    requires iface.name in tm && |tm[iface.name]| > 0
    ensures r.Keys == tm.Keys
    ensures forall k :: k in tm && k != iface.name ==> r[k] == tm[k]
    ensures TableInvariant(tm) ==> TableInvariant(r)
  {
    if SharesMethodName(iface, impl) then tm[iface.name := RetargetOnce(tm[iface.name], impl.name, true)] else tm
  }
}
