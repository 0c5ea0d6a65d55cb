/**
 * The Java source text the weaver generates: the argument list of a
 * forwarding call, the call statement itself, and the declaration that
 * re-creates a replaced field. Each text has a reading-back lemma that
 * takes it apart again.
 */
module Snippets {
  import opened Strings
  import opened ClassModel

  const INSTANCE := "INSTANCE"
  const BOOLEAN := "boolean"

  // ---------------------------------------------------------------------
  // getArgsForInsertSource

  /** javassist's reference to the i-th parameter of the edited method. */
  function ArgRef(i: nat): string {
    "$" + DecimalText(i)
  }

  /** The parameters after the first of an n-parameter method, in order. */
  function ArgRefs(n: nat): (refs: seq<string>)
    ensures |refs| == if n >= 2 then n - 1 else 0
  {
    if n < 2 then [] else ArgRefs(n - 1) + [ArgRef(n)]
  }

  lemma {:induction false} ArgRefsAt(n: nat)
    ensures forall k :: 0 <= k < |ArgRefs(n)| ==> ArgRefs(n)[k] == ArgRef(k + 2)
  {
    if n >= 2 {
      ArgRefsAt(n - 1);
    }
  }

  /** What the loop has built from some references: each followed by a comma. */
  function Terminated(refs: seq<string>): string {
    if refs == [] then "" else Terminated(refs[..|refs| - 1]) + refs[|refs| - 1] + ","
  }

  lemma {:induction false} TerminatedIsJoinPlusComma(refs: seq<string>)
    requires |refs| >= 1
    ensures Terminated(refs) == Join(refs, ',') + ","
    decreases |refs|
  {
    if |refs| > 1 {
      var init := refs[..|refs| - 1];
      TerminatedIsJoinPlusComma(init);
      JoinSnoc(init, refs[|refs| - 1], ',');
      assert init + [refs[|refs| - 1]] == refs;
    }
  }

  lemma {:induction false} JoinSnoc(parts: seq<string>, x: string, c: char)
    requires |parts| >= 1
    ensures Join(parts + [x], c) == Join(parts, c) + [c] + x
    decreases |parts|
  {
    if |parts| > 1 {
      assert (parts + [x])[1..] == parts[1..] + [x];
      JoinSnoc(parts[1..], x, c);
    } else {
      assert (parts + [x])[1..] == [x];
    }
  }

  /**
   * The argument text of the generated call: for a lambda that forwards an
   * anonymous interface call, every parameter but the first (the captured
   * receiver), comma separated; otherwise `$$`, all parameters.
   */
  function ArgsText(n: nat, isAnonymousCall: bool): string {
    if isAnonymousCall && n >= 2 then Join(ArgRefs(n), ',') else "$$"
  }

  /** A parameter reference reads back as `$` and the index it was made from. */
  lemma ArgRefReadsBack(i: nat)
    ensures ArgRef(i)[0] == '$' && ',' !in ArgRef(i)
    ensures IsDigits(ArgRef(i)[1..]) && ParseDecimal(ArgRef(i)[1..]) == i
  {
    DecimalRoundTrip(i);
    assert ArgRef(i)[1..] == DecimalText(i);
  }

  /**
   * Reading the argument text back: split at the commas it is exactly the
   * references to parameters 2 .. n in order, so it never names the
   * receiver (parameter 1) or `this` (parameter 0).
   */
  lemma ArgsTextReadsBack(n: nat, isAnonymousCall: bool)
    ensures !(isAnonymousCall && n >= 2) ==> ArgsText(n, isAnonymousCall) == "$$"
    ensures isAnonymousCall && n >= 2 ==>
      var pieces := Split(ArgsText(n, isAnonymousCall), ',');
      |pieces| == n - 1 && forall k :: 0 <= k < n - 1 ==> pieces[k] == ArgRef(k + 2)
  {
    if isAnonymousCall && n >= 2 {
      var refs := ArgRefs(n);
      ArgRefsAt(n);
      forall k | 0 <= k < |refs|
        ensures ',' !in refs[k]
      {
        ArgRefReadsBack(k + 2);
      }
      SplitJoin(refs, ',');
    }
  }

  // ---------------------------------------------------------------------
  // the forwarding call

  predicate HasInstanceField(c: CtClass) {
    exists k :: 0 <= k < |Fields(c)| && Fields(c)[k].name == INSTANCE
  }

  /**
   * A statement `<call>;` made into a guard when the source method returns
   * boolean: the trailing character is cut and the rest becomes the condition.
   */
  function Guarded(code: string, src: CtMethod): string
    requires |code| > 0
  {
    if src.returnType == BOOLEAN then "if (" + code[..|code| - 1] + ") return;" else code
  }

  /**
   * The statement that calls the source method: through the singleton of a
   * Kotlin object, or statically for a public static Java method. The empty
   * text means "no call can be made", and the weaver then copies the body.
   */
  function CallSnippet(mtdCls: CtClass, src: CtMethod, args: string): string {
    if mtdCls.isKotlin then
      if HasInstanceField(mtdCls) then Guarded(mtdCls.name + ".INSTANCE." + src.name + "(" + args + ");", src) else ""
    else if Public in src.modifiers && Static in src.modifiers then
      Guarded(mtdCls.name + "." + src.name + "(" + args + ");", src)
    else ""
  }

  /** The receiver the call goes through. */
  function Receiver(mtdCls: CtClass): string {
    if mtdCls.isKotlin then mtdCls.name + ".INSTANCE" else mtdCls.name
  }

  /** The call expression, written directly. */
  function CallExpr(mtdCls: CtClass, src: CtMethod, args: string): string {
    Receiver(mtdCls) + "." + src.name + "(" + args + ")"
  }

  predicate CanCall(mtdCls: CtClass, src: CtMethod) {
    if mtdCls.isKotlin then HasInstanceField(mtdCls) else Public in src.modifiers && Static in src.modifiers
  }

  /**
   * The snippet is empty exactly when no call is possible (a Kotlin class
   * without a singleton, or a Java method that is not public static, even
   * when it is a Kotlin class's public static method); otherwise it is the
   * call as a statement, or for a boolean source the guard that returns
   * when the call yields true, whose condition is the whole call.
   */
  lemma CallSnippetForms(mtdCls: CtClass, src: CtMethod, args: string)
    ensures CallSnippet(mtdCls, src, args) == "" <==> !CanCall(mtdCls, src)
    ensures CanCall(mtdCls, src) && src.returnType != BOOLEAN ==>
      CallSnippet(mtdCls, src, args) == CallExpr(mtdCls, src, args) + ";"
    ensures CanCall(mtdCls, src) && src.returnType == BOOLEAN ==>
      CallSnippet(mtdCls, src, args) == "if (" + CallExpr(mtdCls, src, args) + ") return;"
  {
    var stmt := CallExpr(mtdCls, src, args) + ";";
    assert stmt[..|stmt| - 1] == CallExpr(mtdCls, src, args);
    if mtdCls.isKotlin {
      assert mtdCls.name + ".INSTANCE." + src.name + "(" + args + ");" == stmt;
    } else {
      assert mtdCls.name + "." + src.name + "(" + args + ");" == stmt;
    }
  }

  // ---------------------------------------------------------------------
  // addFieldWithType

  /**
   * The modifier keyword written for a field: the FIRST of public,
   * protected, private, static, final, volatile, transient that it has,
   * and only that one.
   */
  function ModifierKeyword(mods: set<Modifier>): string {
    if Public in mods then "public "
    else if Protected in mods then "protected "
    else if Private in mods then "private "
    else if Static in mods then "static "
    else if Final in mods then "final "
    else if Volatile in mods then "volatile "
    else if Transient in mods then "transient "
    else ""
  }

  /** The modifier a declaration with that keyword gives the new field. */
  function KeptModifier(mods: set<Modifier>): (r: set<Modifier>)
    ensures r <= mods && |r| <= 1
  {
    if Public in mods then {Public}
    else if Protected in mods then {Protected}
    else if Private in mods then {Private}
    else if Static in mods then {Static}
    else if Final in mods then {Final}
    else if Volatile in mods then {Volatile}
    else if Transient in mods then {Transient}
    else {}
  }

  /** The keyword as the word it reads back as. */
  function KeywordWords(mods: set<Modifier>): seq<string> {
    var kw := ModifierKeyword(mods);
    if kw == "" then [] else [kw[..|kw| - 1]]
  }

  /** `"$value"` in a string template. */
  function ValueText(value: Option<Literal>): string {
    match value
    case None => "null"
    case Some(IntLit(i)) => IntText(i)
    case Some(LongLit(l)) => IntText(l)
    case Some(FloatLit(t)) => t
    case Some(DoubleLit(t)) => t
    case Some(BoolLit(b)) => if b then "true" else "false"
    case Some(StringLit(s)) => s
    case Some(OtherLit(t)) => t
  }

  /** The initializer: a String is quoted and wrapped, anything else printed as is. */
  function InitializerText(value: Option<Literal>): string {
    match value
    case Some(StringLit(s)) => "new String(\"" + s + "\");"
    case _ => ValueText(value) + ";"
  }

  /** The type written: the annotation's `fieldClzName` if given, else the field's own. */
  function DeclaredType(field: CtField, fieldClassName: Option<string>): string {
    if fieldClassName.Some? && fieldClassName.value != "" then fieldClassName.value else field.typeName
  }

  /** The part after the modifier keyword: `<type> <name> = <initializer>`. */
  function DeclarationTail(typeName: string, name: string, init: string): string {
    typeName + " " + name + " = " + init
  }

  function FieldDeclaration(field: CtField, fieldClassName: Option<string>, value: Option<Literal>): string {
    ModifierKeyword(field.modifiers) + DeclarationTail(DeclaredType(field, fieldClassName), field.name, InitializerText(value))
  }

  lemma SplitLeadingWord(w: string, rest: string)
    requires ' ' !in w
    ensures Split(w + " " + rest, ' ') == [w] + Split(rest, ' ')
  {
    assert w + " " + rest == w + [' '] + rest;
    SplitAfterFirstPiece(w, ' ', rest);
  }

  lemma DeclarationTailWords(typeName: string, name: string, init: string)
    requires ' ' !in typeName && ' ' !in name
    ensures Split(DeclarationTail(typeName, name, init), ' ') == [typeName, name, "="] + Split(init, ' ')
  {
    var r2 := "=" + " " + init;
    var r1 := name + " " + r2;
    assert Split(r2, ' ') == ["="] + Split(init, ' ') by {
      SplitLeadingWord("=", init);
    }
    assert Split(r1, ' ') == [name] + Split(r2, ' ') by {
      SplitLeadingWord(name, r2);
    }
    assert DeclarationTail(typeName, name, init) == typeName + " " + r1;
    assert Split(typeName + " " + r1, ' ') == [typeName] + Split(r1, ' ') by {
      SplitLeadingWord(typeName, r1);
    }
  }

  /**
   * Reading the declaration back word by word: at most one modifier word,
   * then the type, the name and `=`, then the initializer's own words. So a
   * `public static` field comes back declared only `public`.
   */
  lemma FieldDeclarationReadsBack(field: CtField, fieldClassName: Option<string>, value: Option<Literal>)
    requires ' ' !in DeclaredType(field, fieldClassName) && ' ' !in field.name
    ensures Split(FieldDeclaration(field, fieldClassName, value), ' ')
      == KeywordWords(field.modifiers) + [DeclaredType(field, fieldClassName), field.name, "="]
         + Split(InitializerText(value), ' ')
    ensures |KeywordWords(field.modifiers)| <= 1
  {
    var typeName, init := DeclaredType(field, fieldClassName), InitializerText(value);
    var kw, kws := ModifierKeyword(field.modifiers), KeywordWords(field.modifiers);
    var tail := DeclarationTail(typeName, field.name, init);
    assert Split(tail, ' ') == [typeName, field.name, "="] + Split(init, ' ') by {
      DeclarationTailWords(typeName, field.name, init);
    }
    assert Split(kw + tail, ' ') == kws + Split(tail, ' ') && |kws| <= 1 by {
      KeywordShape(field.modifiers);
      PrefixedWords(kw, kws, tail);
    }
  }

  /** A keyword prefix adds its word, if any, in front of the words of the rest. */
  lemma PrefixedWords(kw: string, words: seq<string>, tail: string)
    requires (words == [] && kw == "") || (|words| == 1 && ' ' !in words[0] && kw == words[0] + " ")
    ensures Split(kw + tail, ' ') == words + Split(tail, ' ')
  {
    if words == [] {
      assert kw + tail == tail;
    } else {
      var w := words[0];
      assert words == [w];
      assert kw + tail == w + " " + tail;
      SplitLeadingWord(w, tail);
    }
  }

  /** The keyword is one space-free word and a space, or nothing. */
  lemma KeywordShape(mods: set<Modifier>)
    ensures |KeywordWords(mods)| <= 1
    ensures KeywordWords(mods) == [] ==> ModifierKeyword(mods) == ""
    ensures KeywordWords(mods) != [] ==>
      ' ' !in KeywordWords(mods)[0] && ModifierKeyword(mods) == KeywordWords(mods)[0] + " "
  {
  }
}
