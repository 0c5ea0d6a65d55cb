/**
 * One pending injection directive (`InsertInfo`): which field or method of
 * which source class is to be woven into which destination class.
 * Nullable members are `Option`s. Only `destClassName` is ever changed after
 * construction; the pool does so through `Retargeted`.
 */
module Directives {
  import opened Strings
  import opened ClassModel

  datatype InsertInfo = InsertInfo(
    srcClassName: string,
    srcField: Option<CtField>,
    srcMtd: Option<CtMethod>,
    param: Option<seq<string>>,
    destClassName: Option<string>,
    srcFieldType: Option<string>,
    catch: Option<string>,
    isInterface: bool)

  /**
   * What every directive the collector builds satisfies: exactly one source
   * member, and a method source that carries its annotation and whose
   * parameter types are recorded in `param`.
   */
  predicate WellFormed(info: InsertInfo) {
    && (info.srcField.Some? != info.srcMtd.Some?)
    && (info.srcMtd.Some? ==> info.srcMtd.value.inject.Some? && info.param == Some(info.srcMtd.value.params))
  }

  /** `a` and `b` agree on every member that is declared `val`. */
  predicate SameExceptDest(a: InsertInfo, b: InsertInfo) {
    && a.srcClassName == b.srcClassName
    && a.srcField == b.srcField
    && a.srcMtd == b.srcMtd
    && a.param == b.param
    && a.srcFieldType == b.srcFieldType
    && a.catch == b.catch
    && a.isInterface == b.isInterface
  }

  /** The one mutation the record allows: `info.destClassName = name`. */
  function Retargeted(info: InsertInfo, name: string): (r: InsertInfo)
    ensures SameExceptDest(info, r) && r.destClassName == Some(name)
    ensures WellFormed(info) ==> WellFormed(r)
  {
    info.(destClassName := Some(name))
  }

  // ---------------------------------------------------------------------
  // toString

  /** A nullable value in a string template: `null` prints as "null". */
  function NullableText(o: Option<string>): string {
    match o
    case None => "null"
    case Some(s) => s
  }

  function BoolText(b: bool): string {
    if b then "true" else "false"
  }

  /** A source member in a template; the model prints the member's name. */
  function FieldText(f: Option<CtField>): string {
    match f
    case None => "null"
    case Some(x) => x.name
  }

  function MethodText(m: Option<CtMethod>): string {
    match m
    case None => "null"
    case Some(x) => x.name
  }

  function ToString(info: InsertInfo): (s: string)
    ensures StartsWith(s, "[destClassName] = " + NullableText(info.destClassName) + ", [srcClassName] = " + info.srcClassName)
    ensures EndsWith(s, ", [isInterface] = " + BoolText(info.isInterface))
  {
    var head := "[destClassName] = " + NullableText(info.destClassName) + ", [srcClassName] = " + info.srcClassName;
    var tail := ", [isInterface] = " + BoolText(info.isInterface);
    var s := head
      + " [srcField] = " + FieldText(info.srcField)
      + ", [srcMtd] = " + MethodText(info.srcMtd)
      + ", [srcFieldType] = " + NullableText(info.srcFieldType) + ","
      + " [catch] = " + NullableText(info.catch)
      + tail;
    assert s[..|head|] == head;
    assert s[|s| - |tail|..] == tail;
    s
  }

  /** The parameter types are not part of the printed form. */
  lemma ToStringOmitsParam(info: InsertInfo, p: Option<seq<string>>)
    ensures ToString(info.(param := p)) == ToString(info)
  {
  }
}
