/**
 * `CustomClassPool`: the class pool that collects `@Inject` directives,
 * decides which class files matter, and weaves the directives into their
 * destinations. Its tables are fields updated in place; each method states
 * its new state through the functions of `Matching` and `Injection`.
 */
module Pool {
  import opened Strings
  import opened ClassModel
  import opened Directives
  import opened Util
  import opened Snippets
  import opened Matching
  import opened Injection

  // ---------------------------------------------------------------------
  // the scans written inline in the pool's methods

  /**
   * The downward scan of `anonymousInterfaceCallCheck` and `injectMethod`:
   * does `tParams` hold `mParams` after its first entry?
   */
  method ParamsShiftedScan(mParams: seq<string>, tParams: seq<string>) returns (agrees: bool)
    requires |mParams| == |tParams| - 1
    ensures agrees <==> ParamsShifted(mParams, tParams)
  {
    agrees := true;
    var i := |mParams| - 1;
    while i >= 0
      invariant -1 <= i < |mParams|
      invariant forall k :: i < k < |mParams| ==> mParams[k] == tParams[k + 1]
    {
      if mParams[i] != tParams[i + 1] {
        agrees := false;
        break;
      }
      i := i - 1;
    }
  }

  /**
   * The per-key body of `anonymousInterfaceCallCheck` for an interface
   * destination: every (interface method, lambda of `cls`) pair that matches
   * redirects the list once more to `cls`.
   */
  method LambdaScan(dest: CtClass, cls: CtClass, list: seq<InsertInfo>) returns (result: seq<InsertInfo>, matched: bool)
    requires |list| > 0
    ensures result == RetargetTimes(list, cls.name, false, MatchCount(dest.declaredMethods, cls.declaredMethods))
    ensures matched <==> MatchCount(dest.declaredMethods, cls.declaredMethods) > 0
  {
    var ms, ts := dest.declaredMethods, cls.declaredMethods;
    result, matched := list, false;
    var i := 0;
    while i < |ms|
      invariant 0 <= i <= |ms|
      invariant result == RetargetTimes(list, cls.name, false, MatchCount(ms[..i], ts))
      invariant matched <==> MatchCount(ms[..i], ts) > 0
    {
      var row;
      ghost var before := result;
      result, row := ScanRow(ms[i], ts, result, cls.name);
      RetargetTimesAdd(list, cls.name, false, MatchCount(ms[..i], ts), RowMatches(ms[i], ts));
      matched := matched || row;
      assert ms[..i + 1][..i] == ms[..i];
      i := i + 1;
    }
    assert ms[..i] == ms;
  }

  /** The inner loop of `anonymousInterfaceCallCheck`: one interface method against every method of the class. */
  method ScanRow(mtd: CtMethod, ts: seq<CtMethod>, list: seq<InsertInfo>, name: string) returns (result: seq<InsertInfo>, matched: bool)
    requires |list| > 0
    ensures result == RetargetTimes(list, name, false, RowMatches(mtd, ts))
    ensures matched <==> RowMatches(mtd, ts) > 0
  {
    result, matched := list, false;
    var j := 0;
    while j < |ts|
      invariant 0 <= j <= |ts|
      invariant result == RetargetTimes(list, name, false, RowMatches(mtd, ts[..j]))
      invariant matched <==> RowMatches(mtd, ts[..j]) > 0
    {
      var isMatch := LambdaMatchScan(mtd, ts[j]);
      if isMatch {
        matched := true;
        result := Redirect(result, name, false);
      }
      assert ts[..j + 1][..j] == ts[..j];
      j := j + 1;
    }
    assert ts[..j] == ts;
  }

  /** The test of `anonymousInterfaceCallCheck` on one (interface method, class method) pair. */
  method LambdaMatchScan(mtd: CtMethod, target: CtMethod) returns (isMatch: bool)
    ensures isMatch <==> LambdaMatch(mtd, target)
  {
    isMatch := false;
    if Contains(target.name, LAMBDA) {
      if mtd.returnType == target.returnType && |mtd.params| == |target.params| - 1 {
        isMatch := ParamsShiftedScan(mtd.params, target.params);
      }
    }
  }

  /**
   * The redirection written out in `anonymousInterfaceCallCheck` and
   * `interfaceProcess`: a lone directive is re-aimed in place, otherwise a
   * copy of the first is appended.
   */
  method Redirect(list: seq<InsertInfo>, name: string, isInterface: bool) returns (result: seq<InsertInfo>)
    requires |list| > 0
    ensures result == RetargetOnce(list, name, isInterface)
  {
    if |list| == 1 {
      result := [list[0].(destClassName := Some(name))];
    } else {
      var info := list[0];
      var element := InsertInfo(info.srcClassName, info.srcField, info.srcMtd, info.param,
        Some(name), info.srcFieldType, info.catch, isInterface);
      result := list + [element];
    }
  }

  /** `isParameterMath` of `injectMethod`: no same-shaped interface method disagrees with `m`. */
  method AnonymousCallScan(ifaceMethods: seq<CtMethod>, m: CtMethod) returns (isParameterMatch: bool)
    ensures isParameterMatch <==>
      forall k :: 0 <= k < |ifaceMethods| && SameShape(ifaceMethods[k], m) ==> ParamsShifted(ifaceMethods[k].params, m.params)
  {
    isParameterMatch := true;
    var k := 0;
    while k < |ifaceMethods|
      invariant 0 <= k <= |ifaceMethods|
      invariant isParameterMatch <==>
        forall j :: 0 <= j < k && SameShape(ifaceMethods[j], m) ==> ParamsShifted(ifaceMethods[j].params, m.params)
    {
      var interfaceMtd := ifaceMethods[k];
      if interfaceMtd.returnType == m.returnType && |interfaceMtd.params| == |m.params| - 1 {
        var shifted := ParamsShiftedScan(interfaceMtd.params, m.params);
        if !shifted {
          isParameterMatch := false;
        }
      }
      k := k + 1;
    }
  }

  /** The parameter comparison of `injectMethod`: same count, same type names in order. */
  method SameParameterNames(targetParams: seq<string>, srcParams: seq<string>) returns (agrees: bool)
    ensures agrees <==> targetParams == srcParams
  {
    agrees := true;
    if |targetParams| == |srcParams| {
      var i := 0;
      while i < |targetParams|
        invariant 0 <= i <= |targetParams|
        invariant targetParams[..i] == srcParams[..i]
      {
        if targetParams[i] != srcParams[i] {
          agrees := false;
          break;
        }
        assert targetParams[..i + 1] == srcParams[..i + 1];
        i := i + 1;
      }
      if agrees {
        assert targetParams == targetParams[..i] && srcParams == srcParams[..i];
      }
    } else {
      agrees := false;
    }
  }

  /** `getArgsForInsertSource`. */
  method GetArgsForInsertSource(mtd: CtMethod, isAnonymousCall: bool) returns (args: string)
    ensures args == ArgsText(|mtd.params|, isAnonymousCall)
  {
    args := "";
    if isAnonymousCall {
      var refs := ArgRefs(|mtd.params|);
      ArgRefsAt(|mtd.params|);
      var i := 2;
      while i <= |mtd.params|
        invariant 2 <= i <= if |mtd.params| >= 2 then |mtd.params| + 1 else 2
        invariant args == Terminated(refs[..i - 2])
      {
        assert refs[..i - 1] == refs[..i - 2] + [refs[i - 2]];
        args := args + "$" + DecimalText(i) + ",";
        i := i + 1;
      }
      assert refs[..i - 2] == refs;
      if args != "" {
        TerminatedIsJoinPlusComma(refs);
        var last := refs[|refs| - 1];
        assert |last| >= 1;
        assert args == Terminated(refs[..|refs| - 1]) + last + ",";
        args := args[..|args| - 1];
        assert args == Join(refs, ',') && |args| >= 1;
      }
    }
    if args == "" {
      args := "$$";
    }
  }

  /** The pool's cache after `makeClass(cls)`. */
  function Made(cache: map<string, CtClass>, cls: CtClass): map<string, CtClass> {
    cache[cls.name := cls]
  }

  /** Some lambda of `cls` implements a method of an interface the table aims at. */
  ghost predicate AnyLambdaKey(tm: TargetMap, cache: map<string, CtClass>, paths: seq<ClassPath>, cls: CtClass) {
    exists k :: LambdaKey(tm, cache, paths, cls, k)
  }

  /** `cls` implements an interface the table aims at; the first such, in declaration order. */
  function KeyedInterface(tm: TargetMap, cache: map<string, CtClass>, paths: seq<ClassPath>, cls: CtClass): (r: Option<CtClass>)
    ensures r.Some? ==> r.value.name in tm
  {
    match ResolveAll(cache, paths, cls.interfaces)
    case None => None
    case Some(ifaces) =>
      match FirstKeyed(ifaces, tm)
      case None => None
      case Some(k) => Some(ifaces[k])
  }

  class CustomClassPool {
    /** `map`: class file path to the name of the class it stands for. */
    var pathToClass: map<string, string>
    /** The search roots appended, in order. */
    var pathList: seq<ClassPath>
    /** The classes kept for injection. */
    var clsList: seq<CtClass>
    /** Destination class name to its pending directives. */
    var targetMap: TargetMap
    /** Class files (path, jar entry) that declare directives. */
    var mapContainInsertClass: map<string, bool>
    /** javassist's cache of the classes made or edited, by name. */
    var classes: map<string, CtClass>

    ghost predicate Valid()
      reads this
    {
      TableInvariant(targetMap) && WellNamedCache(classes)
    }

    constructor ()
      ensures Valid()
      ensures pathToClass == map[] && pathList == [] && clsList == [] && targetMap == map[]
      ensures mapContainInsertClass == map[] && classes == map[]
    {
      pathToClass := map[];
      pathList := [];
      clsList := [];
      targetMap := map[];
      mapContainInsertClass := map[];
      classes := map[];
    }

    /** `appendClassPathByFile`: a new search root, searched after the earlier ones. */
    method AppendClassPathByFile(root: string, units: seq<CtClass>)
      requires Valid()
      modifies this`pathList
      ensures Valid()
      ensures pathList == old(pathList) + [ClassPath(root, units)]
    {
      pathList := pathList + [ClassPath(root, units)];
    }

    /** The body of `traverseMembers` for one member. */
    method CollectMember(file: Option<string>, entryName: Option<string>, member: CtMember, ctClassName: string, isField: bool)
      requires Valid()
      modifies this`targetMap, this`mapContainInsertClass
      ensures Valid()
      ensures targetMap == Collect(old(targetMap), ctClassName, member, isField)
      ensures mapContainInsertClass == Marked(old(mapContainInsertClass), file, entryName, member.Annotation().Some?)
    {
      if member.Annotation().Some? {
        var annotation := member.Annotation().value;
        // the destination, with a field's companion suffix stripped
        var targetClassName := DestKey(annotation, isField);
        var insertInfoList := if targetClassName in targetMap then targetMap[targetClassName] else [];
        var info := NewInfo(ctClassName, member, targetClassName);
        targetMap := targetMap[targetClassName := insertInfoList + [info]];
        if file.Some? {
          mapContainInsertClass := mapContainInsertClass[file.value := true];
        } else if entryName.Some? {
          mapContainInsertClass := mapContainInsertClass[entryName.value := true];
        }
      }
    }

    /**
     * `traverseMembers`: files a directive for every annotated member under
     * its destination, and marks the class file when there is one.
     */
    method TraverseMembers(file: Option<string>, entryName: Option<string>, members: seq<CtMember>, ctClassName: string, isField: bool)
      requires Valid()
      modifies this`targetMap, this`mapContainInsertClass
      ensures Valid()
      ensures targetMap == Collected(old(targetMap), ctClassName, members, isField)
      ensures mapContainInsertClass == Marked(old(mapContainInsertClass), file, entryName, AnyAnnotated(members))
    {
      var i := 0;
      while i < |members|
        invariant 0 <= i <= |members| && Valid()
        invariant targetMap == Collected(old(targetMap), ctClassName, members[..i], isField)
        invariant mapContainInsertClass == Marked(old(mapContainInsertClass), file, entryName, AnyAnnotated(members[..i]))
      {
        AnyAnnotatedSnoc(members, i);
        CollectedSnoc(old(targetMap), ctClassName, members, isField, i);
        MarkedTwice(old(mapContainInsertClass), file, entryName, AnyAnnotated(members[..i]), members[i].Annotation().Some?);
        CollectMember(file, entryName, members[i], ctClassName, isField);
        i := i + 1;
      }
      assert members[..i] == members;
    }

    /**
     * `collectUsedClass`: the class's declared fields and then all its
     * methods (inherited ones included) are traversed; the class is then
     * detached from the pool.
     */
    method CollectUsedClass(file: Option<string>, entryName: Option<string>, cls: CtClass)
      requires Valid()
      modifies this`targetMap, this`mapContainInsertClass, this`classes
      ensures Valid()
      ensures targetMap == Collected(Collected(old(targetMap), cls.name, FieldMembers(cls.declaredFields), true),
                                     cls.name, MethodMembers(Methods(cls)), false)
      ensures mapContainInsertClass == Marked(old(mapContainInsertClass), file, entryName,
        AnyAnnotated(FieldMembers(cls.declaredFields)) || AnyAnnotated(MethodMembers(Methods(cls))))
      ensures classes == old(classes) - {cls.name}
    {
      MadeThenDetached(classes, cls);
      classes := Made(classes, cls);
      var fieldMembers, methodMembers := FieldMembers(cls.declaredFields), MethodMembers(Methods(cls));
      TraverseMembers(file, entryName, fieldMembers, cls.name, true);
      TraverseMembers(file, entryName, methodMembers, cls.name, false);
      MarkedTwice(old(mapContainInsertClass), file, entryName, AnyAnnotated(fieldMembers), AnyAnnotated(methodMembers));
      classes := classes - {cls.name};
    }

    /**
     * One key of `anonymousInterfaceCallCheck`, its destination resolved:
     * for an interface, each match redirects the list and maps the file to
     * the interface.
     */
    method CheckKey(path: string, cls: CtClass, key: string, dest: CtClass) returns (matched: bool)
      requires Valid() && key in targetMap && dest.name == key
      modifies this`targetMap, this`pathToClass
      ensures Valid()
      ensures matched <==> LambdaImplements(dest, cls)
      ensures targetMap == old(targetMap)[key := LambdaChecked(old(targetMap)[key], dest, cls)]
      ensures pathToClass == if matched then old(pathToClass)[path := key] else old(pathToClass)
    {
      matched := false;
      if dest.isInterface {
        var list;
        list, matched := LambdaScan(dest, cls, targetMap[key]);
        targetMap := targetMap[key := list];
        if matched {
          pathToClass := pathToClass[path := dest.name];
        }
      } else {
        assert targetMap == targetMap[key := targetMap[key]];
      }
    }

    /**
     * `anonymousInterfaceCallCheck`: for every key naming an interface,
     * each lambda of `cls` implementing one of its methods redirects the
     * key's list to `cls` and maps the file to the interface. Fails on the
     * first key that does not resolve.
     */
    method AnonymousInterfaceCallCheck(path: string, cls: CtClass) returns (r: Result<bool>, ghost hit: string)
      requires Valid()
      modifies this`targetMap, this`pathToClass
      ensures Valid()
      ensures targetMap.Keys == old(targetMap).Keys
      ensures r.Ok? <==> AllResolvable(old(targetMap), classes, pathList)
      ensures r.Ok? ==> targetMap == LambdaCheckedMap(old(targetMap), classes, pathList, cls)
      ensures r.Ok? ==> (r.value <==> AnyLambdaKey(old(targetMap), classes, pathList, cls))
      ensures r.Ok? && r.value ==>
        LambdaKey(old(targetMap), classes, pathList, cls, hit) && pathToClass == old(pathToClass)[path := hit]
      ensures r.Ok? && !r.value ==> pathToClass == old(pathToClass)
      ensures NoInterfaceCopies(old(targetMap)) ==> NoInterfaceCopies(targetMap)
    {
      var isContainInjectTarget := false;
      var keys := targetMap.Keys;
      ghost var tm0 := targetMap;
      ghost var goal := LambdaCheckedMap(tm0, classes, pathList, cls);
      ghost var done: set<string> := {};
      hit := "";
      while keys != {}
        invariant Valid() && CheckedSoFar(tm0, goal, targetMap, done, keys)
        invariant Hits(tm0, classes, pathList, cls, done, isContainInjectTarget, hit, path, old(pathToClass), pathToClass)
        decreases keys
      {
        var key :| key in keys;
        var dest := Resolve(classes, pathList, key);
        if dest.None? {
          assert !AllResolvable(tm0, classes, pathList);
          return Err(NotFound(key)), hit;
        }
        ResolveKeepsName(classes, pathList, key);
        ghost var before := targetMap;
        ghost var p := pathToClass;
        var matched := CheckKey(path, cls, key, dest.value);
        CheckedStep(tm0, goal, before, done, keys, key, targetMap[key]);
        HitsStep(tm0, classes, pathList, cls, done, isContainInjectTarget, hit, path, old(pathToClass), p, key, matched, pathToClass);
        if matched {
          isContainInjectTarget := true;
          hit := key;
        }
        keys := keys - {key};
        done := done + {key};
      }
      CheckedAll(tm0, goal, targetMap, done);
      HitsAll(tm0, classes, pathList, cls, done, isContainInjectTarget, hit, path, old(pathToClass), pathToClass);
      r := Ok(isContainInjectTarget);
    }

    /** The search of `injectPrepare` for an implemented interface the table aims at. */
    method ImplementInterfaces(path: string, cls: CtClass) returns (isInterfaceImpl: bool)
      requires Valid()
      modifies this`targetMap, this`pathToClass
      ensures Valid()
      ensures isInterfaceImpl == KeyedInterface(old(targetMap), classes, pathList, cls).Some?
      ensures isInterfaceImpl ==>
        var iface := KeyedInterface(old(targetMap), classes, pathList, cls).value;
        && targetMap == InterfaceProcessed(old(targetMap), cls, iface)
        && pathToClass == old(pathToClass)[path := iface.name]
      ensures !isInterfaceImpl ==> targetMap == old(targetMap) && pathToClass == old(pathToClass)
    {
      isInterfaceImpl := false;
      var interfaces := ResolveAll(classes, pathList, cls.interfaces);
      if interfaces.Some? {
        var ifaces := interfaces.value;
        var k := 0;
        while k < |ifaces|
          invariant 0 <= k <= |ifaces|
          invariant forall j :: 0 <= j < k ==> ifaces[j].name !in targetMap
        {
          if ifaces[k].name in targetMap {
            isInterfaceImpl := true;
            pathToClass := pathToClass[path := ifaces[k].name];
            assert FirstKeyed(ifaces, targetMap) == Some(k);
            InterfaceProcess(cls, ifaces[k]);
            return;
          }
          k := k + 1;
        }
      }
    }

    /**
     * `interfaceProcess`: when the interface and the class share a method
     * name, the interface's directives are redirected once to the class.
     */
    method InterfaceProcess(interfaceImplClass: CtClass, iClass: CtClass)
      requires Valid() && iClass.name in targetMap
      modifies this`targetMap
      ensures Valid()
      ensures targetMap == InterfaceProcessed(old(targetMap), interfaceImplClass, iClass)
    {
      var members, mtds := iClass.declaredMethods, Methods(interfaceImplClass);
      var found := false;
      ghost var wi, wj := 0, 0;
      var i := 0;
      while i < |members|
        invariant 0 <= i <= |members| && !found
        invariant forall a, b :: 0 <= a < i && 0 <= b < |mtds| ==> members[a].name != mtds[b].name
      {
        var j := 0;
        while j < |mtds|
          invariant 0 <= j <= |mtds| && !found
          invariant forall b :: 0 <= b < j ==> members[i].name != mtds[b].name
        {
          if members[i].name == mtds[j].name {
            found := true;
            wi, wj := i, j;
            break;
          }
          j := j + 1;
        }
        if found {
          break;
        }
        i := i + 1;
      }
      if found {
        assert members[wi].name == mtds[wj].name;
        var list := Redirect(targetMap[iClass.name], interfaceImplClass.name, true);
        targetMap := targetMap[iClass.name := list];
      }
    }

    /**
     * `injectPrepare` as written: makes the class, redirects directives to
     * it when one of its lambdas implements a targeted interface, and keeps
     * it for injection when it matters: such a lambda, a destination, or a
     * file that declares directives; otherwise it is detached. Failure is a
     * destination that does not resolve. The search among the implemented
     * interfaces is a lambda literal that is never invoked, so
     * `isInterfaceImpl` stays false and no directive becomes an interface
     * copy.
     */
    method InjectPrepare(path: string, cls: CtClass) returns (r: Result<()>)
      requires Valid()
      modifies this`targetMap, this`pathToClass, this`clsList, this`classes
      ensures Valid()
      ensures targetMap.Keys == old(targetMap).Keys
      ensures r.Ok? <==> cls.isInterface || AllResolvable(old(targetMap), Made(old(classes), cls), pathList)
      ensures r.Ok? ==> targetMap == RedirectedAsWritten(old(targetMap), Made(old(classes), cls), pathList, cls)
      ensures NoInterfaceCopies(old(targetMap)) ==> NoInterfaceCopies(targetMap)
      ensures r.Ok? ==>
        if KeptAsWritten(old(targetMap), old(mapContainInsertClass), Made(old(classes), cls), pathList, path, cls)
        then clsList == old(clsList) + [cls] && classes == Made(old(classes), cls)
        else clsList == old(clsList) && classes == old(classes) - {cls.name}
      ensures r.Ok? ==> PathMappedAsWritten(old(pathToClass), pathToClass, old(targetMap), old(mapContainInsertClass), Made(old(classes), cls), pathList, path, cls)
    {
      MadeThenDetached(classes, cls);
      classes := Made(classes, cls);
      var isContainInjectTarget := false;
      var isInterfaceImpl := false;
      ghost var hit := cls.name;
      if !cls.isInterface {
        var check;
        check, hit := AnonymousInterfaceCallCheck(path, cls);
        if check.Err? {
          return Err(check.failure);
        }
        isContainInjectTarget := check.value;
      }
      ghost var p2 := pathToClass;
      r := Keep(path, cls, isInterfaceImpl, isContainInjectTarget);
      if isContainInjectTarget {
        assert LambdaKey(old(targetMap), classes, pathList, cls, hit) && pathToClass == old(pathToClass)[path := hit];
      }
    }

    /**
     * `injectPrepare` as evidently intended, with the interface search
     * invoked: the lambda stage, then the first implemented interface that
     * is a key, whose list `interfaceProcess` redirects to the class.
     */
    method InjectPrepareIntended(path: string, cls: CtClass) returns (r: Result<()>)
      requires Valid()
      modifies this`targetMap, this`pathToClass, this`clsList, this`classes
      ensures Valid()
      ensures targetMap.Keys == old(targetMap).Keys
      ensures r.Ok? <==> cls.isInterface || AllResolvable(old(targetMap), Made(old(classes), cls), pathList)
      ensures r.Ok? ==> targetMap == Redirected(old(targetMap), Made(old(classes), cls), pathList, cls)
      ensures r.Ok? ==>
        if Kept(old(targetMap), old(mapContainInsertClass), Made(old(classes), cls), pathList, path, cls)
        then clsList == old(clsList) + [cls] && classes == Made(old(classes), cls)
        else clsList == old(clsList) && classes == old(classes) - {cls.name}
      ensures r.Ok? ==> PathMapped(old(pathToClass), pathToClass, old(targetMap), old(mapContainInsertClass), Made(old(classes), cls), pathList, path, cls)
    {
      MadeThenDetached(classes, cls);
      classes := Made(classes, cls);
      var isContainInjectTarget, isInterfaceImpl := false, false;
      ghost var name := cls.name;
      if !cls.isInterface {
        var stages;
        stages, name := RedirectStages(path, cls);
        if stages.Err? {
          return Err(stages.failure);
        }
        isContainInjectTarget, isInterfaceImpl := stages.value.0, stages.value.1;
      }
      ghost var p2, cache := pathToClass, classes;
      r := Keep(path, cls, isInterfaceImpl, isContainInjectTarget);
      KeptStage(old(pathToClass), p2, pathToClass, old(targetMap), mapContainInsertClass, cache, pathList, path, cls,
                isContainInjectTarget, isInterfaceImpl, name);
    }

    /**
     * The redirections of `InjectPrepareIntended` for a class that is not an
     * interface: its lambdas first, then an implemented interface. Returns
     * whether each stage hit, and (as `name`) what the file was filed under.
     */
    method RedirectStages(path: string, cls: CtClass) returns (r: Result<(bool, bool)>, ghost name: string)
      requires Valid() && !cls.isInterface
      modifies this`targetMap, this`pathToClass
      ensures Valid()
      ensures targetMap.Keys == old(targetMap).Keys
      ensures r.Ok? <==> AllResolvable(old(targetMap), classes, pathList)
      ensures r.Ok? ==> targetMap == Redirected(old(targetMap), classes, pathList, cls)
      ensures r.Ok? ==> r.value.0 == AnyLambdaKey(old(targetMap), classes, pathList, cls)
      ensures r.Ok? ==> r.value.1 == RedirectingInterface(old(targetMap), classes, pathList, cls).Some?
      ensures r.Ok? && (r.value.0 || r.value.1) ==>
        FiledUnder(old(targetMap), classes, pathList, cls, name) && pathToClass == old(pathToClass)[path := name]
      ensures r.Ok? && !r.value.0 && !r.value.1 ==> pathToClass == old(pathToClass)
    {
      var check, hit := AnonymousInterfaceCallCheck(path, cls);
      if check.Err? {
        return Err(check.failure), hit;
      }
      ghost var p1 := pathToClass;
      var isInterfaceImpl := ImplementInterfaces(path, cls);
      if isInterfaceImpl && check.value {
        OverwrittenTwice(old(pathToClass), path, hit, RedirectingInterface(old(targetMap), classes, pathList, cls).value.name);
      }
      name := if isInterfaceImpl then RedirectingInterface(old(targetMap), classes, pathList, cls).value.name else hit;
      r := Ok((check.value, isInterfaceImpl));
    }

    /** The end of `injectPrepare`: keep the class, or detach it. */
    method Keep(path: string, cls: CtClass, isInterfaceImpl: bool, isContainInjectTarget: bool) returns (r: Result<()>)
      requires Valid() && cls.name in classes && classes[cls.name] == cls
      modifies this`pathToClass, this`clsList, this`classes
      ensures Valid() && r == Ok(())
      ensures var kept := isInterfaceImpl || isContainInjectTarget || cls.name in targetMap || path in mapContainInsertClass;
        && clsList == (if kept then old(clsList) + [cls] else old(clsList))
        && classes == (if kept then old(classes) else old(classes) - {cls.name})
        && pathToClass == (if kept && !isInterfaceImpl && !isContainInjectTarget then old(pathToClass)[path := cls.name] else old(pathToClass))
    {
      if isInterfaceImpl || isContainInjectTarget || cls.name in targetMap || path in mapContainInsertClass {
        if !isInterfaceImpl && !isContainInjectTarget {
          pathToClass := pathToClass[path := cls.name];
        }
        clsList := clsList + [cls];
      } else {
        classes := classes - {cls.name};
      }
      r := Ok(());
    }

    /**
     * `injectField`: removes the destination's field of that name, empties
     * the static initializer's accesses to it, and adds the replacement.
     */
    method InjectField(fields: seq<CtField>, item: InsertInfo, targetCtCls: CtClass) returns (patched: CtClass)
      requires item.srcField.Some? && fields == targetCtCls.declaredFields
      ensures patched == FieldInjected(targetCtCls, item)
    {
      patched := targetCtCls;
      var srcField := item.srcField.value;
      if |fields| > 0 {
        var k := 0;
        while k < |fields|
          invariant 0 <= k <= |fields|
          invariant forall j :: 0 <= j < k ==> fields[j].name != srcField.name
          invariant patched == targetCtCls
        {
          var field := fields[k];
          if field.name == srcField.name {
            assert FieldIndex(fields, srcField.name) == Some(k);
            patched := patched.(declaredFields := RemoveAt(fields, k));
            patched := patched.(classInitializer := NeutralizedInitializer(patched.classInitializer, srcField.name));
            var constantValue := srcField.constantValue;
            if (item.srcFieldType.None? || item.srcFieldType.value == "") && constantValue.Some? {
              var added := CopiedField(field, constantValue.value);
              patched := patched.(declaredFields := patched.declaredFields + OptionList(added));
            } else {
              var added := MadeField(field, item.srcFieldType, constantValue);
              patched := patched.(declaredFields := patched.declaredFields + [added]);
            }
            return;
          }
          k := k + 1;
        }
      }
    }

    /**
     * `injectMethod`: finds the first destination method the directive
     * selects, generates the forwarding call, and places it; the result is
     * the pool's cache with the edits, or the lookup that failed.
     */
    method InjectMethod(methods: seq<CtMethod>, item: InsertInfo, targetCtCls: CtClass) returns (r: Result<map<string, CtClass>>)
      requires WellNamedCache(classes) && WellFormed(item) && item.srcMtd.Some?
      requires Resolve(classes, pathList, targetCtCls.name) == Some(targetCtCls) && methods == targetCtCls.declaredMethods
      ensures r == MethodInjected(classes, pathList, item, targetCtCls)
    {
      var srcMethod := item.srcMtd.value;
      var annotation := srcMethod.inject.value;
      var clsName := TargetClassName(annotation);
      var annotationTarget := Resolve(classes, pathList, clsName);
      if annotationTarget.None? {
        return Err(NotFound(clsName));
      }
      var annTarget := annotationTarget.value;
      var k := 0;
      while k < |methods|
        invariant 0 <= k <= |methods|
        invariant forall j :: 0 <= j < k ==> !Selected(annTarget, annotation, srcMethod, methods[j])
      {
        var m := methods[k];
        var isAnonymousInterfaceCall := false;
        if annTarget.isInterface && Contains(m.name, LAMBDA) {
          isAnonymousInterfaceCall := AnonymousCallScan(annTarget.declaredMethods, m);
        }
        assert isAnonymousInterfaceCall == IsAnonymousInterfaceCall(annTarget, m);
        if m.name == annotation.name || isAnonymousInterfaceCall {
          var agrees := true;
          if !isAnonymousInterfaceCall {
            agrees := SameParameterNames(m.params, srcMethod.params);
          }
          if agrees {
            assert Selection(classes, pathList, item, targetCtCls) == Some(k);
            r := InjectSelected(item, targetCtCls, k, isAnonymousInterfaceCall);
            return;
          }
        }
        k := k + 1;
      }
      r := Ok(classes);
    }

    /** The part of `injectMethod` after method `k` of the destination is chosen. */
    method InjectSelected(item: InsertInfo, targetCtCls: CtClass, k: nat, isAnonymousInterfaceCall: bool) returns (r: Result<map<string, CtClass>>)
      requires WellNamedCache(classes) && WellFormed(item) && item.srcMtd.Some? && k < |targetCtCls.declaredMethods|
      requires Resolve(classes, pathList, targetCtCls.name) == Some(targetCtCls)
      requires AnnotationTarget(classes, pathList, item).Some? && Selection(classes, pathList, item, targetCtCls) == Some(k)
      requires isAnonymousInterfaceCall ==
        IsAnonymousInterfaceCall(AnnotationTarget(classes, pathList, item).value, targetCtCls.declaredMethods[k])
      ensures r == MethodInjected(classes, pathList, item, targetCtCls)
    {
      var srcMethod := item.srcMtd.value;
      var annotation := srcMethod.inject.value;
      var clsName := TargetClassName(annotation);
      var m := targetCtCls.declaredMethods[k];
      var found := Resolve(classes, pathList, item.srcClassName);
      if found.None? {
        return Err(NotFound(item.srcClassName));
      }
      var mtdCls := found.value;
      ResolveKeepsName(classes, pathList, item.srcClassName);
      ResolveKeepsName(classes, pathList, targetCtCls.name);
      var another: Option<nat> := None;
      if item.isInterface {
        another := DeclaredMethodIndex(mtdCls.declaredMethods, m.name, item.param.value);
        if another.None? {
          return Err(NoSuchMethod(mtdCls.name, m.name));
        }
      }
      assert another == TwinIndex(item, mtdCls, m);
      var args := GetArgsForInsertSource(m, isAnonymousInterfaceCall);
      var code := CallCode(mtdCls, srcMethod, args);
      var cache := PlaceCode(item, targetCtCls, k, mtdCls, another, code);
      r := Ok(cache);
    }

    /** The placement of `injectMethod`: which body the code goes into, and the handler. */
    method PlaceCode(item: InsertInfo, targetCtCls: CtClass, k: nat, mtdCls: CtClass, another: Option<nat>, code: string)
      returns (cache: map<string, CtClass>)
      requires item.srcMtd.Some? && item.srcMtd.value.inject.Some? && k < |targetCtCls.declaredMethods|
      requires mtdCls.name == targetCtCls.name ==> mtdCls == targetCtCls
      requires another.Some? ==> another.value < |mtdCls.declaredMethods|
      ensures cache == Placement(classes, item, targetCtCls, k, mtdCls, another, code)
    {
      var srcMethod := item.srcMtd.value;
      var annotation := srcMethod.inject.value;
      var clsName := TargetClassName(annotation);
      var m := targetCtCls.declaredMethods[k];
      cache := classes;
      var t := targetCtCls;
      if code == "" {
        t := WithBody(t, k, Copied(srcMethod.body, EndsWith(clsName, KOTLIN_COMPANION_SUFFIX)));
      } else if annotation.replace {
        t := WithBody(t, k, Replaced(code));
      } else if annotation.before {
        if another.Some? {
          var a := another.value;
          var edited := WithBody(mtdCls, a, Before(code, mtdCls.declaredMethods[a].body));
          cache := cache[mtdCls.name := edited];
          if mtdCls.name == targetCtCls.name {
            t := edited;
          }
        } else {
          t := WithBody(t, k, Before(code, m.body));
        }
      } else {
        t := WithBody(t, k, After(m.body, code));
      }
      ghost var placed := t;
      if item.catch.Some? && item.catch.value != "" {
        t := WithBody(t, k, Catch(t.declaredMethods[k].body, item.catch.value));
      }
      PlacedAsSpecified(classes, item, targetCtCls, k, mtdCls, another, code, placed, t);
      cache := cache[targetCtCls.name := t];
    }

    /**
     * The code generation of `injectMethod`: the singleton search over the
     * source class's fields for a Kotlin class, the static call otherwise.
     */
    static method CallCode(mtdCls: CtClass, srcMethod: CtMethod, args: string) returns (code: string)
      ensures code == CallSnippet(mtdCls, srcMethod, args)
    {
      code := "";
      if mtdCls.isKotlin {
        var fields := Fields(mtdCls);
        var f := 0;
        while f < |fields|
          invariant 0 <= f <= |fields|
          invariant code == "" && forall g :: 0 <= g < f ==> fields[g].name != INSTANCE
        {
          if fields[f].name == "INSTANCE" {
            code := mtdCls.name + ".INSTANCE." + srcMethod.name + "(" + args + ");";
            if srcMethod.returnType == BOOLEAN {
              var tmp := code[..|code| - 1];
              code := "if (" + tmp + ") return;";
            }
            return;
          }
          f := f + 1;
        }
      } else if Public in srcMethod.modifiers && Static in srcMethod.modifiers {
        code := mtdCls.name + "." + srcMethod.name + "(" + args + ");";
        if srcMethod.returnType == BOOLEAN {
          var tmp := code[..|code| - 1];
          code := "if (" + tmp + ") return;";
        }
      }
    }

    /** The loop body of `injectItem`: one directive woven into the cache. */
    method InjectOne(item: InsertInfo) returns (r: Result<map<string, CtClass>>)
      requires WellNamedCache(classes) && WellFormed(item)
      ensures r == ApplyOne(classes, pathList, item)
    {
      var target := ResolveDest(classes, pathList, item.destClassName);
      if target.Err? {
        return Err(target.failure);
      }
      var targetCtCls := target.value;
      ResolveKeepsName(classes, pathList, item.destClassName.value);
      if item.srcField.Some? {
        var patched := InjectField(targetCtCls.declaredFields, item, targetCtCls);
        r := Ok(classes[targetCtCls.name := patched]);
      } else {
        r := InjectMethod(targetCtCls.declaredMethods, item, targetCtCls);
      }
    }

    /**
     * `injectItem`: weaves every pending directive of the destination, in
     * list order, removing each once woven; the key goes when its list is
     * empty. Returns whether the destination had directives. The list is
     * never empty (keys are created with their first directive and dropped
     * when emptied), and every directive has a field or a method, so each
     * is woven.
     */
    method InjectItem(clsName: string) returns (r: Result<bool>)
      requires Valid()
      modifies this`targetMap, this`classes
      ensures Valid()
      ensures clsName !in old(targetMap) ==> r == Ok(false) && targetMap == old(targetMap) && classes == old(classes)
      ensures clsName in old(targetMap) ==> (r.Err? <==> ApplyAll(old(classes), pathList, old(targetMap)[clsName]).Err?)
      ensures clsName in old(targetMap) && r.Ok? ==>
        && r.value
        && targetMap == Consumed(old(targetMap), clsName)
        && classes == ApplyAll(old(classes), pathList, old(targetMap)[clsName]).value
    {
      if clsName !in targetMap {
        return Ok(false);
      }
      var insertInfoList := targetMap[clsName];
      ghost var orig := insertInfoList;
      ghost var n := 0;
      assert orig[..0] == [] && orig[0..] == orig;
      var i := 0;
      while i < |insertInfoList|
        invariant i == 0 && Weaving(old(classes), pathList, orig, n, insertInfoList, classes)
        invariant targetMap == old(targetMap)
        decreases |insertInfoList|
      {
        var item := insertInfoList[i];
        var woven := InjectOne(item);
        if woven.Err? {
          WeavingFails(old(classes), pathList, orig, n, insertInfoList, classes);
          TableUpdate(targetMap, clsName, insertInfoList);
          // the list is the table's own: what was woven stays removed
          targetMap := targetMap[clsName := insertInfoList];
          return Err(woven.failure);
        }
        WeavingStep(old(classes), pathList, orig, n, insertInfoList, classes, woven.value);
        classes := woven.value;
        insertInfoList := insertInfoList[..i] + insertInfoList[i + 1..];
        n := n + 1;
      }
      WeavingDone(old(classes), pathList, orig, n, insertInfoList, classes);
      targetMap := targetMap[clsName := insertInfoList];
      if |insertInfoList| == 0 {
        targetMap := targetMap - {clsName};
      }
      ConsumedRemovesKey(old(targetMap), clsName);
      assert targetMap == Consumed(old(targetMap), clsName);
      r := Ok(true);
    }

    /**
     * `injectInsertInfo`: weaves the destination the class file stands for,
     * if the file is known and any directive is pending.
     */
    method InjectInsertInfo(absolutePath: Option<string>) returns (r: Result<()>)
      requires Valid()
      modifies this`targetMap, this`classes
      ensures Valid()
      ensures old(targetMap) == map[] || absolutePath.None? || absolutePath.value == "" || absolutePath.value !in old(pathToClass) ==>
        r == Ok(()) && targetMap == old(targetMap) && classes == old(classes)
      ensures old(targetMap) != map[] && absolutePath.Some? && absolutePath.value != "" && absolutePath.value in old(pathToClass) ==>
        var key := old(pathToClass)[absolutePath.value];
        && (key !in old(targetMap) ==> r == Ok(()) && targetMap == old(targetMap) && classes == old(classes))
        && (key in old(targetMap) ==>
              && (r.Err? <==> ApplyAll(old(classes), pathList, old(targetMap)[key]).Err?)
              && (r.Ok? ==> targetMap == Consumed(old(targetMap), key)
                            && classes == ApplyAll(old(classes), pathList, old(targetMap)[key]).value))
    {
      if targetMap == map[] {
        return Ok(());
      }
      if absolutePath.Some? && absolutePath.value != "" {
        if absolutePath.value !in pathToClass {
          return Ok(());
        }
        var clsName := pathToClass[absolutePath.value];
        var done := InjectItem(clsName);
        if done.Err? {
          return Err(done.failure);
        }
      }
      r := Ok(());
    }

    /** `release`: every table emptied, the roots removed, the classes detached. */
    method Release()
      modifies this
      ensures Valid()
      ensures pathToClass == map[] && pathList == [] && clsList == [] && targetMap == map[]
      ensures mapContainInsertClass == map[] && classes == map[]
    {
      pathToClass := map[];
      targetMap := map[];
      mapContainInsertClass := map[];
      pathList := [];
      clsList := [];
      classes := map[];
    }

    /** `isTarget`: the class still has directives pending. */
    predicate IsTarget(className: string)
      reads this
      requires Valid()
      ensures IsTarget(className) <==> |Get(targetMap, className)| > 0
    {
      className in targetMap
    }
  }

  /** The class-file marks after members were collected: the file is marked when any of them is annotated. */
  function Marked(marks: map<string, bool>, file: Option<string>, entryName: Option<string>, annotated: bool): (r: map<string, bool>)
    ensures forall k :: k in r <==> k in marks || (annotated && MarkerKey(file, entryName) == Some(k))
    ensures forall k :: k in marks && MarkerKey(file, entryName) != Some(k) ==> r[k] == marks[k]
    ensures annotated && MarkerKey(file, entryName).Some? ==> r[MarkerKey(file, entryName).value]
  {
    if annotated && MarkerKey(file, entryName).Some? then marks[MarkerKey(file, entryName).value := true] else marks
  }

  /** Marking is idempotent: two rounds mark what one round over both would. */
  lemma MarkedTwice(marks: map<string, bool>, file: Option<string>, entryName: Option<string>, a: bool, b: bool)
    ensures Marked(Marked(marks, file, entryName, a), file, entryName, b) == Marked(marks, file, entryName, a || b)
  {
    if a && b && MarkerKey(file, entryName).Some? {
      var key := MarkerKey(file, entryName).value;
      assert marks[key := true][key := true] == marks[key := true];
    }
  }

  lemma CollectedSnoc(tm: TargetMap, ctClassName: string, members: seq<CtMember>, isField: bool, i: nat)
    requires i < |members|
    ensures Collected(tm, ctClassName, members[..i + 1], isField)
         == Collect(Collected(tm, ctClassName, members[..i], isField), ctClassName, members[i], isField)
  {
    assert members[..i + 1][..i] == members[..i];
  }

  /** Some member among the first i + 1 is annotated iff one among the first i is, or member i. */
  lemma AnyAnnotatedSnoc(members: seq<CtMember>, i: nat)
    requires i < |members|
    ensures AnyAnnotated(members[..i + 1]) <==> AnyAnnotated(members[..i]) || members[i].Annotation().Some?
  {
    var next := members[..i + 1];
    if AnyAnnotated(next) && !members[i].Annotation().Some? {
      var k :| 0 <= k < |next| && next[k].Annotation().Some?;
      assert members[..i][k] == next[k];
    }
    if AnyAnnotated(members[..i]) {
      var k :| 0 <= k < i && members[..i][k].Annotation().Some?;
      assert next[k] == members[..i][k];
    }
    if members[i].Annotation().Some? {
      assert next[i] == members[i];
    }
  }

  /**
   * Progress of `anonymousInterfaceCallCheck` over the key set: the keys in
   * `done` hold their final lists, those in `todo` their original ones.
   */
  ghost predicate CheckedSoFar(tm0: TargetMap, goal: TargetMap, tm: TargetMap, done: set<string>, todo: set<string>) {
    && todo !! done && todo + done == tm0.Keys && tm.Keys == tm0.Keys && goal.Keys == tm0.Keys
    && (forall k :: k in done ==> tm[k] == goal[k])
    && (forall k :: k in todo ==> tm[k] == tm0[k])
  }

  lemma CheckedStep(tm0: TargetMap, goal: TargetMap, tm: TargetMap, done: set<string>, todo: set<string>, key: string, list: seq<InsertInfo>)
    requires CheckedSoFar(tm0, goal, tm, done, todo) && key in todo && list == goal[key]
    ensures CheckedSoFar(tm0, goal, tm[key := list], done + {key}, todo - {key})
  {
  }

  /**
   * Progress of the lambda check over the keys in `done`: all resolved, and
   * the file mapped to the last key hit, or untouched when none was.
   */
  ghost predicate Hits(tm0: TargetMap, cache: map<string, CtClass>, paths: seq<ClassPath>, cls: CtClass, done: set<string>,
                       flag: bool, hit: string, path: string, p0: map<string, string>, p: map<string, string>) {
    && (forall k :: k in done ==> Resolve(cache, paths, k).Some?)
    && (flag ==> hit in done && LambdaKey(tm0, cache, paths, cls, hit) && p == p0[path := hit])
    && (!flag ==> p == p0 && forall k :: k in done ==> !LambdaKey(tm0, cache, paths, cls, k))
  }

  lemma HitsStep(tm0: TargetMap, cache: map<string, CtClass>, paths: seq<ClassPath>, cls: CtClass, done: set<string>,
                 flag: bool, hit: string, path: string, p0: map<string, string>, p: map<string, string>,
                 key: string, matched: bool, p': map<string, string>)
    requires Hits(tm0, cache, paths, cls, done, flag, hit, path, p0, p) && key in tm0
    requires Resolve(cache, paths, key).Some? && (matched <==> LambdaImplements(Resolve(cache, paths, key).value, cls))
    requires p' == if matched then p[path := key] else p
    ensures Hits(tm0, cache, paths, cls, done + {key}, flag || matched, if matched then key else hit, path, p0, p')
  {
    if matched && flag {
      assert p0[path := hit][path := key] == p0[path := key];
    }
  }

  lemma HitsAll(tm0: TargetMap, cache: map<string, CtClass>, paths: seq<ClassPath>, cls: CtClass, done: set<string>,
                flag: bool, hit: string, path: string, p0: map<string, string>, p: map<string, string>)
    requires Hits(tm0, cache, paths, cls, done, flag, hit, path, p0, p) && done == tm0.Keys
    ensures AllResolvable(tm0, cache, paths)
    ensures flag <==> AnyLambdaKey(tm0, cache, paths, cls)
    ensures flag ==> LambdaKey(tm0, cache, paths, cls, hit) && p == p0[path := hit]
    ensures !flag ==> p == p0
  {
  }

  lemma CheckedAll(tm0: TargetMap, goal: TargetMap, tm: TargetMap, done: set<string>)
    requires CheckedSoFar(tm0, goal, tm, done, {})
    ensures tm == goal
  {
  }

  /** The table after `injectPrepare` as written: only the lambdas of a class that is not an interface redirect. */
  ghost function RedirectedAsWritten(tm: TargetMap, cache: map<string, CtClass>, paths: seq<ClassPath>, cls: CtClass): (r: TargetMap)
    requires TableInvariant(tm)
    ensures r.Keys == tm.Keys && TableInvariant(r)
    ensures NoInterfaceCopies(tm) ==> NoInterfaceCopies(r)
  {
    LambdaCheckedMapInvariant(tm, cache, paths, cls);
    if cls.isInterface then tm else LambdaCheckedMap(tm, cache, paths, cls)
  }

  /** `injectPrepare` as written keeps the class: a lambda hit, a destination, or a file that declares directives. */
  ghost predicate KeptAsWritten(tm: TargetMap, marked: map<string, bool>, cache: map<string, CtClass>, paths: seq<ClassPath>, path: string, cls: CtClass) {
    || (!cls.isInterface && AnyLambdaKey(tm, cache, paths, cls))
    || cls.name in tm
    || path in marked
  }

  /**
   * The file mapping after `injectPrepare` as written: on a lambda hit the
   * file is filed under an interface a lambda implements; otherwise a kept
   * class is filed under its own name; a detached one leaves the mapping.
   */
  ghost predicate PathMappedAsWritten(before: map<string, string>, after: map<string, string>, tm: TargetMap, marked: map<string, bool>,
                                      cache: map<string, CtClass>, paths: seq<ClassPath>, path: string, cls: CtClass) {
    if !cls.isInterface && AnyLambdaKey(tm, cache, paths, cls) then
      exists name :: LambdaKey(tm, cache, paths, cls, name) && after == before[path := name]
    else if cls.name in tm || path in marked then after == before[path := cls.name]
    else after == before
  }

  /**
   * An input on which the two readings of `injectPrepare` part: the table
   * aims a field directive at interface `I`, and class `C` implements `I`
   * directly, declares a method of the same name and has no lambdas. As
   * written, `C` is detached and the directive stays aimed at `I`; as
   * intended, `C` is kept and the directive is re-aimed at `C`.
   */
  lemma DirectImplementerDropped()
    ensures
      var run := CtMethod("run", [], "void", {}, None, Original("run"));
      var iface := CtClass("I", true, false, [], [], [], [run], [], None);
      var cls := CtClass("C", false, false, ["I"], [], [], [run], [], None);
      var d := InsertInfo("S", Some(CtField("x", "int", {}, None, None, Declared)), None, None, Some("I"), Some(""), Some(""), false);
      var tm: TargetMap := map["I" := [d]];
      var cache := Made(map["I" := iface], cls);
      && RedirectedAsWritten(tm, cache, [], cls) == tm
      && !KeptAsWritten(tm, map[], cache, [], "C.class", cls)
      && Redirected(tm, cache, [], cls) == map["I" := [Retargeted(d, "C")]]
      && Kept(tm, map[], cache, [], "C.class", cls)
  {
    var run := CtMethod("run", [], "void", {}, None, Original("run"));
    var iface := CtClass("I", true, false, [], [], [], [run], [], None);
    var cls := CtClass("C", false, false, ["I"], [], [], [run], [], None);
    var d := InsertInfo("S", Some(CtField("x", "int", {}, None, None, Declared)), None, None, Some("I"), Some(""), Some(""), false);
    var tm: TargetMap := map["I" := [d]];
    var cache := Made(map["I" := iface], cls);
    assert !LambdaMatch(run, run);
    assert RowMatches(run, [run]) == 0 by {
      assert [run][..0] == [];
    }
    assert MatchCount([run], [run]) == 0 by {
      assert [run][..0] == [];
    }
    assert LambdaCheckedMap(tm, cache, [], cls) == tm;
    assert !AnyLambdaKey(tm, cache, [], cls);
    assert ResolveAll(cache, [], ["I"]) == Some([iface]) by {
      assert ["I"][..0] == [] && ResolveAll(cache, [], []) == Some([]);
      assert Resolve(cache, [], "I") == Some(iface);
      assert [] + [iface] == [iface];
    }
    assert KeyedInterface(tm, cache, [], cls) == Some(iface);
    assert Methods(cls) == [run] by {
      assert [run][1..] == [] && NonPrivateMethods([]) == [];
      assert NonPrivateMethods([run]) == [run] + [];
    }
    assert SharesMethodName(iface, cls) by {
      assert iface.declaredMethods[0].name == Methods(cls)[0].name;
    }
  }

  /**
   * The two readings of `injectPrepare` part only on a class that directly
   * implements a key interface: whatever the written one keeps the
   * intended one keeps too, and without such an interface they agree.
   */
  lemma ReadingsAgree(tm: TargetMap, marked: map<string, bool>, cache: map<string, CtClass>, paths: seq<ClassPath>, path: string, cls: CtClass)
    requires TableInvariant(tm)
    ensures KeptAsWritten(tm, marked, cache, paths, path, cls) ==> Kept(tm, marked, cache, paths, path, cls)
    ensures RedirectingInterface(tm, cache, paths, cls).None? ==>
      && Redirected(tm, cache, paths, cls) == RedirectedAsWritten(tm, cache, paths, cls)
      && (Kept(tm, marked, cache, paths, path, cls) <==> KeptAsWritten(tm, marked, cache, paths, path, cls))
  {
  }

  /** The table after `InjectPrepareIntended`'s redirections: lambdas first, then a directly implemented interface. */
  ghost function Redirected(tm: TargetMap, cache: map<string, CtClass>, paths: seq<ClassPath>, cls: CtClass): (r: TargetMap)
    requires TableInvariant(tm)
    ensures r.Keys == tm.Keys && TableInvariant(r)
  {
    if cls.isInterface then tm
    else
      LambdaCheckedMapInvariant(tm, cache, paths, cls);
      var tm1 := LambdaCheckedMap(tm, cache, paths, cls);
      match KeyedInterface(tm1, cache, paths, cls)
      case None => tm1
      case Some(iface) => InterfaceProcessed(tm1, cls, iface)
  }

  /** The interface `InjectPrepareIntended` redirects to `cls`, if any. */
  ghost function RedirectingInterface(tm: TargetMap, cache: map<string, CtClass>, paths: seq<ClassPath>, cls: CtClass): Option<CtClass>
    requires forall k :: k in tm ==> |tm[k]| > 0
  {
    if cls.isInterface then None else KeyedInterface(LambdaCheckedMap(tm, cache, paths, cls), cache, paths, cls)
  }

  /** `InjectPrepareIntended` keeps the class: it implements a targeted interface, lambda-matches, is a destination, or declares directives. */
  ghost predicate Kept(tm: TargetMap, marked: map<string, bool>, cache: map<string, CtClass>, paths: seq<ClassPath>, path: string, cls: CtClass)
    requires forall k :: k in tm ==> |tm[k]| > 0
  {
    || RedirectingInterface(tm, cache, paths, cls).Some?
    || (!cls.isInterface && AnyLambdaKey(tm, cache, paths, cls))
    || cls.name in tm
    || path in marked
  }

  /**
   * A name `InjectPrepareIntended` may file the class file under: the interface it
   * implements, else an interface one of its lambdas implements, else the
   * class itself.
   */
  ghost predicate FiledUnder(tm: TargetMap, cache: map<string, CtClass>, paths: seq<ClassPath>, cls: CtClass, name: string)
    requires forall k :: k in tm ==> |tm[k]| > 0
  {
    var iface := RedirectingInterface(tm, cache, paths, cls);
    if iface.Some? then name == iface.value.name
    else if !cls.isInterface && AnyLambdaKey(tm, cache, paths, cls) then LambdaKey(tm, cache, paths, cls, name)
    else name == cls.name
  }

  /** The file mapping after `InjectPrepareIntended`: one new entry when the class is kept, none otherwise. */
  ghost predicate PathMapped(before: map<string, string>, after: map<string, string>, tm: TargetMap, marked: map<string, bool>,
                             cache: map<string, CtClass>, paths: seq<ClassPath>, path: string, cls: CtClass)
    requires forall k :: k in tm ==> |tm[k]| > 0
  {
    if Kept(tm, marked, cache, paths, path, cls) then
      exists name :: FiledUnder(tm, cache, paths, cls, name) && after == before[path := name]
    else after == before
  }

  /** The file mapping of `InjectPrepareIntended`, assembled from what the redirections and the keeping did to it. */
  lemma KeptStage(before: map<string, string>, p2: map<string, string>, p3: map<string, string>,
                  tm: TargetMap, marked: map<string, bool>, cache: map<string, CtClass>, paths: seq<ClassPath>,
                  path: string, cls: CtClass, isContain: bool, isImpl: bool, name: string)
    requires forall k :: k in tm ==> |tm[k]| > 0
    requires cls.isInterface ==> !isContain && !isImpl && p2 == before
    requires !cls.isInterface ==> isContain == AnyLambdaKey(tm, cache, paths, cls)
    requires !cls.isInterface ==> isImpl == RedirectingInterface(tm, cache, paths, cls).Some?
    requires isContain || isImpl ==> FiledUnder(tm, cache, paths, cls, name) && p2 == before[path := name]
    requires !isContain && !isImpl ==> p2 == before
    requires p3 == if (cls.name in tm || path in marked) && !isImpl && !isContain then p2[path := cls.name] else p2
    ensures Kept(tm, marked, cache, paths, path, cls) <==> isContain || isImpl || cls.name in tm || path in marked
    ensures PathMapped(before, p3, tm, marked, cache, paths, path, cls)
  {
    if !isContain && !isImpl && Kept(tm, marked, cache, paths, path, cls) {
      assert FiledUnder(tm, cache, paths, cls, cls.name);
    }
  }

  lemma OverwrittenTwice(m: map<string, string>, key: string, a: string, b: string)
    ensures m[key := a][key := b] == m[key := b]
  {
  }

  /** Making a class keeps the cache filed by name; detaching it again leaves the cache without it. */
  lemma MadeThenDetached(cache: map<string, CtClass>, cls: CtClass)
    requires WellNamedCache(cache)
    ensures WellNamedCache(Made(cache, cls)) && WellNamedCache(cache - {cls.name})
    ensures Made(cache, cls) - {cls.name} == cache - {cls.name}
  {
  }

  /**
   * Progress of `injectItem`: the first n directives are woven into
   * `cache`, and the list holds the rest.
   */
  ghost predicate Weaving(cache0: map<string, CtClass>, paths: seq<ClassPath>, orig: seq<InsertInfo>, n: nat,
                          list: seq<InsertInfo>, cache: map<string, CtClass>) {
    && n <= |orig| && AllWellFormed(orig) && WellNamedCache(cache0) && WellNamedCache(cache)
    && list == orig[n..]
    && AllWellFormed(orig[..n]) && ApplyAll(cache0, paths, orig[..n]) == Ok(cache)
  }

  lemma WeavingStep(cache0: map<string, CtClass>, paths: seq<ClassPath>, orig: seq<InsertInfo>, n: nat,
                    list: seq<InsertInfo>, cache: map<string, CtClass>, next: map<string, CtClass>)
    requires Weaving(cache0, paths, orig, n, list, cache) && |list| > 0
    requires WellFormed(list[0]) && ApplyOne(cache, paths, list[0]) == Ok(next)
    ensures Weaving(cache0, paths, orig, n + 1, list[..0] + list[1..], next)
  {
    ApplyAllStep(cache0, paths, orig, n);
    assert list[..0] + list[1..] == orig[n + 1..];
  }

  lemma WeavingFails(cache0: map<string, CtClass>, paths: seq<ClassPath>, orig: seq<InsertInfo>, n: nat,
                     list: seq<InsertInfo>, cache: map<string, CtClass>)
    requires Weaving(cache0, paths, orig, n, list, cache) && |list| > 0
    requires WellFormed(list[0]) && ApplyOne(cache, paths, list[0]).Err?
    ensures ApplyAll(cache0, paths, orig).Err?
    ensures AllWellFormed(list)
  {
    ApplyAllStep(cache0, paths, orig, n);
    ApplyAllStopsAtFailure(cache0, paths, orig, n + 1);
  }

  lemma WeavingDone(cache0: map<string, CtClass>, paths: seq<ClassPath>, orig: seq<InsertInfo>, n: nat,
                    list: seq<InsertInfo>, cache: map<string, CtClass>)
    requires Weaving(cache0, paths, orig, n, list, cache) && list == []
    ensures ApplyAll(cache0, paths, orig) == Ok(cache)
  {
    assert orig[..n] == orig;
  }

  lemma TableUpdate(tm: TargetMap, key: string, list: seq<InsertInfo>)
    requires TableInvariant(tm) && |list| > 0 && AllWellFormed(list)
    ensures TableInvariant(tm[key := list])
  {
  }

  /** One more directive: the pass over n + 1 directives is the pass over n, then that one. */
  lemma ApplyAllStep(cache: map<string, CtClass>, paths: seq<ClassPath>, items: seq<InsertInfo>, n: nat)
    requires AllWellFormed(items) && WellNamedCache(cache) && n < |items|
    ensures AllWellFormed(items[..n]) && AllWellFormed(items[..n + 1])
    ensures ApplyAll(cache, paths, items[..n]).Err? ==> ApplyAll(cache, paths, items[..n + 1]) == ApplyAll(cache, paths, items[..n])
    ensures ApplyAll(cache, paths, items[..n]).Ok? ==>
      ApplyAll(cache, paths, items[..n + 1]) == ApplyOne(ApplyAll(cache, paths, items[..n]).value, paths, items[n])
  {
    assert items[..n + 1][..n] == items[..n];
  }

  /**
   * What `InjectSelected` builds agrees with `Placement`: the source body
   * copied, replaced, or wrapped (or the twin edited instead), and then a
   * handler around whatever the chosen method ends up with.
   */
  lemma PlacedAsSpecified(cache: map<string, CtClass>, item: InsertInfo, target: CtClass, k: nat, mtdCls: CtClass,
                          twin: Option<nat>, code: string, placed: CtClass, t: CtClass)
    requires item.srcMtd.Some? && item.srcMtd.value.inject.Some? && k < |target.declaredMethods|
    requires mtdCls.name == target.name ==> mtdCls == target
    requires twin.Some? ==> twin.value < |mtdCls.declaredMethods|
    requires
      var ann := item.srcMtd.value.inject.value;
      var twinEdited := code != "" && !ann.replace && ann.before && twin.Some?;
      var edited := if twinEdited then WithBody(mtdCls, twin.value, Before(code, mtdCls.declaredMethods[twin.value].body)) else mtdCls;
      var t1 := if twinEdited && mtdCls.name == target.name then edited else target;
      && k < |t1.declaredMethods|
      && placed == (if twinEdited then t1
                    else WithBody(target, k, Placed(target.declaredMethods[k].body, item.srcMtd.value, code, ann,
                                                    EndsWith(TargetClassName(ann), KOTLIN_COMPANION_SUFFIX), false)))
      && t == (if item.catch.Some? && item.catch.value != "" then WithBody(placed, k, Catch(placed.declaredMethods[k].body, item.catch.value)) else placed)
    ensures
      var ann := item.srcMtd.value.inject.value;
      var twinEdited := code != "" && !ann.replace && ann.before && twin.Some?;
      var cache1 := if twinEdited then cache[mtdCls.name := WithBody(mtdCls, twin.value, Before(code, mtdCls.declaredMethods[twin.value].body))] else cache;
      Placement(cache, item, target, k, mtdCls, twin, code) == cache1[target.name := t]
  {
    var ann := item.srcMtd.value.inject.value;
    var twinEdited := code != "" && !ann.replace && ann.before && twin.Some?;
    if twinEdited {
      if !(item.catch.Some? && item.catch.value != "") {
        WithBodyCurrent(placed, k);
      }
    } else if item.catch.Some? && item.catch.value != "" {
      WithBodyTwice(target, k, placed.declaredMethods[k].body, t.declaredMethods[k].body);
    }
  }

  /** Members as `CtMember`s, in order. */
  function FieldMembers(fs: seq<CtField>): (r: seq<CtMember>)
    ensures |r| == |fs| && forall k :: 0 <= k < |fs| ==> r[k] == FieldMember(fs[k])
  {
    if fs == [] then [] else [FieldMember(fs[0])] + FieldMembers(fs[1..])
  }

  function MethodMembers(ms: seq<CtMethod>): (r: seq<CtMember>)
    ensures |r| == |ms| && forall k :: 0 <= k < |ms| ==> r[k] == MethodMember(ms[k])
  {
    if ms == [] then [] else [MethodMember(ms[0])] + MethodMembers(ms[1..])
  }

  /**
   * A pass whose first n directives end in a failure fails as a whole: the
   * later directives are not applied.
   */
  lemma {:induction false} ApplyAllStopsAtFailure(cache: map<string, CtClass>, paths: seq<ClassPath>, items: seq<InsertInfo>, n: nat)
    requires AllWellFormed(items) && WellNamedCache(cache) && n <= |items|
    requires AllWellFormed(items[..n]) && ApplyAll(cache, paths, items[..n]).Err?
    ensures ApplyAll(cache, paths, items).Err?
    decreases |items| - n
  {
    if n < |items| {
      var next := items[..n + 1];
      assert next[..n] == items[..n];
      assert AllWellFormed(next);
      ApplyAllStopsAtFailure(cache, paths, items, n + 1);
    } else {
      assert items[..n] == items;
    }
  }
}
