/**
 * The text-generation core of `Implementor`: from a reflected interface it
 * builds the source of a class `<SimpleName>Impl` in the same package that
 * implements every abstract method with a body returning the default value
 * of its return type, the name of the file that source goes to, and the
 * checks `implement` makes before it writes anything.
 *
 * The generated unit is the header, then each abstract method indented by
 * `TAB`, then a closing brace; `implement` writes the three pieces through
 * `convertToUnicode`.
 */
module Implementor {
  import opened JavaText
  import opened Reflection
  import opened UnicodeEscape

  /** `TAB`: the indentation of generated code, three spaces. */
  const TAB: JString := Lit("   ")

  /** The two `ImplerException`s `implement` raises before it opens its writer. */
  datatype ImplerError = InterfaceExpected | PrivateInterface
  {
    function Message(): JString
    {
      match this
      case InterfaceExpected => Lit("Interface expected")
      case PrivateInterface => Lit("Can not implement private interface")
    }
  }

  datatype Result<T> = Success(value: T) | Failure(error: ImplerError)

  /** What `implement` writes: the file's name under the output root, and its contents. */
  datatype SourceFile = SourceFile(name: JString, text: JString)

  // ---------------------------------------------------------------------------
  // Default values and parameter lists
  // ---------------------------------------------------------------------------

  /** `getDefaultValue`: the literal a stub returns for a given return type. */
  function GetDefaultValue(returnType: TypeRef): JString
  {
    if returnType.Primitive? then
      if returnType.kind == Boolean then Lit("false")
      else if returnType.kind == Void then Lit("")
      else Lit("0")
    else Lit("null")
  }

  /**
   * Each of the four default values belongs to exactly one kind of return
   * type: `false` to `boolean`, nothing to `void`, `0` to the other
   * primitives and `null` to reference types.
   */
  lemma DefaultValueCases(returnType: TypeRef)
    ensures GetDefaultValue(returnType) == Lit("false") <==> returnType.IsBoolean()
    ensures GetDefaultValue(returnType) == [] <==> returnType.IsVoid()
    ensures GetDefaultValue(returnType) == Lit("0") <==> returnType.Primitive? && returnType.kind !in {Boolean, Void}
    ensures GetDefaultValue(returnType) == Lit("null") <==> returnType.Reference?
  {
    assert Lit("false")[0] != Lit("0")[0] && Lit("false")[0] != Lit("null")[0] && Lit("0")[0] != Lit("null")[0];
  }

  /** The lambda of `getParameters`: `"<canonical type> <name>"`. */
  function RenderParameter(p: Parameter): JString
  {
    p.paramType.canonicalName + Lit(" ") + p.name
  }

  function RenderedParameters(parameters: seq<Parameter>): (r: seq<JString>)
    ensures |r| == |parameters|
  {
    seq(|parameters|, i requires 0 <= i < |parameters| => RenderParameter(parameters[i]))
  }

  /** `getParameters`: the rendered parameters joined with `", "`, in declaration order. */
  function GetParameters(parameters: seq<Parameter>): (r: JString)
    ensures r == [] <==> parameters == []
  {
    var rendered := RenderedParameters(parameters);
    assert rendered != [] ==> |rendered[0]| > 0;
    Join(rendered, Lit(", "))
  }

  /** No comma in a parameter's type name or in its name, as in every Java declaration. */
  predicate CommaFree(parameters: seq<Parameter>)
  {
    forall i | 0 <= i < |parameters| ::
      Comma !in parameters[i].paramType.canonicalName && Comma !in parameters[i].name
  }

  lemma RenderedParametersCommaFree(parameters: seq<Parameter>)
    requires CommaFree(parameters)
    ensures forall i | 0 <= i < |parameters| :: Comma !in RenderedParameters(parameters)[i]
  {
    forall i | 0 <= i < |parameters|
      ensures Comma !in RenderedParameters(parameters)[i]
    {
      assert Comma !in Lit(" ");
    }
  }

  /**
   * The parameter list reads back, split at its separators, as the declared
   * parameters in their declaration order.
   */
  lemma ParametersSplitBack(parameters: seq<Parameter>)
    requires parameters != [] && CommaFree(parameters)
    ensures Split(GetParameters(parameters), Lit(", ")) == RenderedParameters(parameters)
  {
    RenderedParametersCommaFree(parameters);
    SplitJoin(RenderedParameters(parameters), Lit(", "));
  }

  /** n parameters are separated by exactly n - 1 commas; none gives empty text. */
  lemma ParametersSeparatorCount(parameters: seq<Parameter>)
    requires CommaFree(parameters)
    ensures CountOf(GetParameters(parameters), Comma) == if parameters == [] then 0 else |parameters| - 1
  {
    RenderedParametersCommaFree(parameters);
    JoinCount(RenderedParameters(parameters), Lit(", "), Comma);
    assert CountOf(Lit(", "), Comma) == 1;
  }

  // ---------------------------------------------------------------------------
  // Method bodies
  // ---------------------------------------------------------------------------

  /** The declaration up to its parameter list: `public <return type> <name> (`. */
  function MethodHead(m: MethodInfo): JString
  {
    Lit("public ") + m.returnType.canonicalName + Lit(" ") + m.name + Lit(" (")
  }

  /** From the closing parenthesis to the indentation of the one statement. */
  const BlockOpen: JString := Lit(") {") + NL + TAB

  /** The one statement of a generated method: ` return <default value>;`. */
  function ReturnStatement(returnType: TypeRef): JString
  {
    Lit(" return ") + GetDefaultValue(returnType) + Lit(";")
  }

  /** The end of the statement's line, the closing brace and its line end. */
  const BlockClose: JString := NL + Lit("}") + NL

  /** Everything after the parameter list. */
  function MethodTail(returnType: TypeRef): JString
  {
    BlockOpen + ReturnStatement(returnType) + BlockClose
  }

  /**
   * `createMethodBody`: the format `public %s %s (%s) {%n%s return %s;%n}%n`
   * filled with the return type, the name, the parameter list, `TAB` and the
   * default value.
   */
  function CreateMethodBody(m: MethodInfo): JString
  {
    MethodHead(m) + GetParameters(m.parameters) + MethodTail(m.returnType)
  }

  /** A method's text as its head, its parameter list and opening, and its statement and closing. */
  lemma MethodBodyParts(m: MethodInfo)
    ensures CreateMethodBody(m)
      == MethodHead(m) + (GetParameters(m.parameters) + BlockOpen) + (ReturnStatement(m.returnType) + BlockClose)
  {
    var head, params, ret := MethodHead(m), GetParameters(m.parameters), ReturnStatement(m.returnType);
    ConcatAssoc(BlockOpen, ret, BlockClose);
    ConcatAssoc(head + params, BlockOpen, ret + BlockClose);
    ConcatAssoc(head, params, BlockOpen);
  }

  /** The return statement carries no value exactly when the return type is `void`. */
  lemma BareReturnIffVoid(returnType: TypeRef)
    ensures ReturnStatement(returnType) == Lit(" return ;") <==> returnType.IsVoid()
  {
    var d := GetDefaultValue(returnType);
    if ReturnStatement(returnType) == Lit(" return ;") {
      assert |d| == 0;
    }
  }

  /** The words of a text: the pieces between single spaces, empty ones included. */
  function Words(s: JString): seq<JString>
  {
    Split(s, [Space])
  }

  /**
   * What the one statement of a method's text returns: its last word, up to
   * the first `;`.
   */
  function ReturnedValue(body: JString): JString
  {
    var w := Words(body);
    if w == [] then []
    else
      var last := w[|w| - 1];
      last[..IndexOf(last, Code(';'))]
  }

  /** A default value is a single word without a semicolon. */
  lemma DefaultValuePlain(returnType: TypeRef)
    ensures Space !in GetDefaultValue(returnType) && Code(';') !in GetDefaultValue(returnType)
  {
    LitAbsent("false", ' ');
    LitAbsent("false", ';');
    LitAbsent("0", ' ');
    LitAbsent("0", ';');
    LitAbsent("null", ' ');
    LitAbsent("null", ';');
  }

  /** A text ending in a space, a word and a tail that starts with `;` returns that word. */
  lemma ReturnedValueOfParts(front: JString, value: JString, rest: JString)
    requires Space !in value && Space !in rest && Code(';') !in value
    requires |rest| > 0 && rest[0] == Code(';')
    ensures ReturnedValue(front + ([Space] + (value + rest))) == value
  {
    SplitAround(front, value + rest, Space);
    SplitNone(value + rest, Space);
    IndexOfAppend(value, rest, Code(';'));
    assert (value + rest)[..|value|] == value;
  }

  /** Regrouping a method's text so that the space before the returned value stands out. */
  lemma BodyRegrouped(front: JString, ret: JString, value: JString, semi: JString, close: JString, sp: jchar)
    ensures front + (((ret + [sp]) + value + semi) + close) == (front + ret) + ([sp] + (value + (semi + close)))
  {
  }

  /**
   * Read back, the one statement of a generated method returns exactly the
   * default value of its return type.
   */
  lemma MethodBodyReturns(m: MethodInfo)
    ensures ReturnedValue(CreateMethodBody(m)) == GetDefaultValue(m.returnType)
  {
    var front := MethodHead(m) + (GetParameters(m.parameters) + BlockOpen);
    var value := GetDefaultValue(m.returnType);
    MethodBodyParts(m);
    assert Lit(" return ") == Lit(" return") + [Space];
    BodyRegrouped(front, Lit(" return"), value, Lit(";"), BlockClose, Space);
    DefaultValuePlain(m.returnType);
    LitAbsent(";", ' ');
    LitAbsent("}", ' ');
    LitAbsent("\n", ' ');
    ReturnedValueOfParts(front + Lit(" return"), value, Lit(";") + BlockClose);
  }

  /** The text between the first `(` and the first `)` after it. */
  function ParameterListOf(r: JString): JString
  {
    var open := IndexOf(r, Code('('));
    if open == |r| then []
    else
      var rest := r[open + 1..];
      rest[..IndexOf(rest, Code(')'))]
  }

  /** No parenthesis in the names that precede or form the parameter list. */
  predicate ParenFree(m: MethodInfo)
  {
    && Code('(') !in m.returnType.canonicalName && Code('(') !in m.name
    && forall i | 0 <= i < |m.parameters| ::
         Code(')') !in m.parameters[i].paramType.canonicalName && Code(')') !in m.parameters[i].name
  }

  lemma GetParametersParenFree(parameters: seq<Parameter>)
    requires forall i | 0 <= i < |parameters| ::
      Code(')') !in parameters[i].paramType.canonicalName && Code(')') !in parameters[i].name
    ensures Code(')') !in GetParameters(parameters)
  {
    var rendered := RenderedParameters(parameters);
    forall i | 0 <= i < |rendered| ensures Code(')') !in rendered[i] {
      assert Code(')') !in Lit(" ");
    }
    JoinAbsent(rendered, Lit(", "), Code(')'));
  }

  /**
   * Every generated method declares its parameters as the interface method
   * does: the text between its parentheses is exactly the parameter list,
   * which (by `ParametersSplitBack`) splits into the declared parameters in
   * order, and is empty for a method without parameters.
   */
  lemma MethodBodyParameters(m: MethodInfo)
    requires ParenFree(m)
    ensures ParameterListOf(CreateMethodBody(m)) == GetParameters(m.parameters)
    ensures m.parameters == [] <==> ParameterListOf(CreateMethodBody(m)) == []
  {
    HeadOpenParen(m);
    GetParametersParenFree(m.parameters);
    assert MethodTail(m.returnType)[0] == Code(')');
    ParameterListOfParts(MethodHead(m), GetParameters(m.parameters), MethodTail(m.returnType));
  }

  /** The parameter list is found between the head's `(` and the tail's `)`. */
  lemma ParameterListOfParts(head: JString, params: JString, tail: JString)
    requires |head| > 0 && IndexOf(head, Code('(')) == |head| - 1
    requires Code(')') !in params
    requires |tail| > 0 && tail[0] == Code(')')
    ensures ParameterListOf(head + params + tail) == params
  {
    var after := params + tail;
    IndexOfPrefix(head, after, Code('('));
    IndexOfAppend(params, tail, Code(')'));
    assert IndexOf(tail, Code(')')) == 0;
    ParameterListOfAt(head, after, IndexOf(after, Code(')')));
    assert after[..|params|] == params;
    ConcatAssoc(head, params, tail);
  }

  /** Where the head ends with the first `(`, the list is what follows it up to the first `)`. */
  lemma ParameterListOfAt(head: JString, after: JString, close: nat)
    requires |head| > 0 && IndexOf(head + after, Code('(')) == |head| - 1
    requires close == IndexOf(after, Code(')'))
    ensures ParameterListOf(head + after) == after[..close]
  {
    assert (head + after)[|head|..] == after;
  }

  /** The first `(` of a method's declaration is the one that opens its parameter list. */
  lemma HeadOpenParen(m: MethodInfo)
    requires ParenFree(m)
    ensures IndexOf(MethodHead(m), Code('(')) == |MethodHead(m)| - 1
  {
    var declared := Lit("public ") + m.returnType.canonicalName + Lit(" ") + m.name;
    assert MethodHead(m) == declared + Lit(" (");
    assert Code('(') !in Lit("public ") && Code('(') !in Lit(" ");
    IndexOfAppend(declared, Lit(" ("), Code('('));
  }

  // ---------------------------------------------------------------------------
  // The method surface
  // ---------------------------------------------------------------------------

  /** The filter of `getMethods`: the abstract methods, in reflection's order. */
  function AbstractMethods(methods: seq<MethodInfo>): (r: seq<MethodInfo>)
    ensures |r| <= |methods|
  {
    if methods == [] then []
    else (if methods[0].isAbstract then [methods[0]] else []) + AbstractMethods(methods[1..])
  }

  /** The filter keeps exactly the abstract methods: nothing else, and none of them is lost. */
  lemma {:induction false} AbstractMethodsFilter(methods: seq<MethodInfo>)
    ensures forall m :: m in AbstractMethods(methods) <==> m in methods && m.isAbstract
  {
    if methods != [] {
      AbstractMethodsFilter(methods[1..]);
      assert methods == [methods[0]] + methods[1..];
    }
  }

  /** `getMethods`: the abstract methods among those reflection reports for `token`. */
  function GetMethods(token: TypeToken): seq<MethodInfo>
  {
    AbstractMethods(token.methods)
  }

  /** The filter keeps reflection's order: it works piecewise on a split of the list. */
  lemma {:induction false} AbstractMethodsAppend(a: seq<MethodInfo>, b: seq<MethodInfo>)
    ensures AbstractMethods(a + b) == AbstractMethods(a) + AbstractMethods(b)
  {
    if a == [] {
      assert a + b == b;
    } else {
      assert (a + b)[0] == a[0];
      assert (a + b)[1..] == a[1..] + b;
      AbstractMethodsAppend(a[1..], b);
    }
  }

  /** What `implementMethods` appends for one method: `TAB`, then its body. */
  function IndentedMethod(m: MethodInfo): JString
  {
    TAB + CreateMethodBody(m)
  }

  /** The text of the methods, each indented by `TAB`, in the order given. */
  function MethodsText(methods: seq<MethodInfo>): JString
  {
    ConcatMap(IndentedMethod, methods)
  }

  /**
   * The text of a list of methods holds the text of each of them, between the
   * texts of the methods before it and after it.
   */
  lemma MethodsTextAt(methods: seq<MethodInfo>, k: nat)
    requires k < |methods|
    ensures MethodsText(methods)
      == MethodsText(methods[..k]) + IndentedMethod(methods[k]) + MethodsText(methods[k + 1..])
  {
    var before, after := methods[..k], methods[k + 1..];
    assert methods == before + [methods[k]] + after;
    ConcatMapAppend(IndentedMethod, before + [methods[k]], after);
    ConcatMapAppend(IndentedMethod, before, [methods[k]]);
    assert ConcatMap(IndentedMethod, [methods[k]]) == ConcatMap(IndentedMethod, []) + IndentedMethod(methods[k]);
  }

  /** One more method appends `TAB` and its body to the text of those before it. */
  lemma MethodsTextStep(methods: seq<MethodInfo>, i: nat)
    requires i < |methods|
    ensures MethodsText(methods[..i + 1]) == MethodsText(methods[..i]) + TAB + CreateMethodBody(methods[i])
  {
    assert methods[..i + 1][..i] == methods[..i];
    ConcatAssoc(MethodsText(methods[..i]), TAB, CreateMethodBody(methods[i]));
  }

  /**
   * `implementMethods`: a builder that receives `TAB` and the body of each
   * abstract method in turn.
   */
  method ImplementMethods(token: TypeToken) returns (r: JString)
    ensures r == MethodsText(GetMethods(token))
  {
    var methods := GetMethods(token);
    r := [];
    for i := 0 to |methods|
      invariant r == MethodsText(methods[..i])
    {
      MethodsTextStep(methods, i);
      r := r + TAB;
      r := r + CreateMethodBody(methods[i]);
    }
    assert methods[..|methods|] == methods;
  }

  // ---------------------------------------------------------------------------
  // Header and names
  // ---------------------------------------------------------------------------

  /** `createImplName`: the simple name with `Impl` appended. */
  function CreateImplName(token: TypeToken): JString
  {
    token.simpleName + Lit("Impl")
  }

  /** Distinct simple names give distinct implementation names. */
  lemma ImplNameInjective(a: TypeToken, b: TypeToken)
    ensures CreateImplName(a) == CreateImplName(b) <==> a.simpleName == b.simpleName
  {
    if CreateImplName(a) == CreateImplName(b) {
      assert CreateImplName(a)[..|a.simpleName|] == a.simpleName;
      assert CreateImplName(b)[..|b.simpleName|] == b.simpleName;
    }
  }

  /** `createPackage`: a package clause, omitted for the unnamed package. */
  function CreatePackage(token: TypeToken): (r: JString)
    ensures r == [] <==> token.packageName == []
  {
    if token.packageName == [] then []
    else Lit("package ") + token.packageName + Lit(";") + NL
  }

  /** The class declaration line of the header. */
  function ClassDeclaration(token: TypeToken): JString
  {
    Lit("public class ") + CreateImplName(token) + Lit(" implements ") + token.canonicalName + Lit(" {") + NL
  }

  /**
   * `createHeader`: the package clause, then the declaration of the public
   * class `<SimpleName>Impl` implementing the interface's canonical name.
   */
  function CreateHeader(token: TypeToken): JString
  {
    CreatePackage(token) + ClassDeclaration(token)
  }

  /** The literal pieces of the class declaration, with their spaces made explicit. */
  lemma DeclarationLiterals()
    ensures Lit("public class ") == Lit("public") + [Space] + Lit("class") + [Space]
    ensures Lit(" implements ") == [Space] + Lit("implements") + [Space]
    ensures Lit(" {") == [Space] + Lit("{")
  {
    assert Lit("public class ") == Lit("public") + [Space] + Lit("class") + [Space];
    assert Lit(" implements ") == [Space] + Lit("implements") + [Space];
  }

  /** Regrouping the header so that each space stands before the word it opens. */
  lemma HeaderRegrouped(pkg: JString, pub: JString, cls: JString, name: JString,
                        impl: JString, canonical: JString, open: JString, sp: jchar)
    ensures pkg + ((pub + [sp] + cls + [sp]) + name + ([sp] + impl + [sp]) + canonical + ([sp] + open))
      == (pkg + pub + ([sp] + cls)) + ([sp] + (name + ([sp] + (impl + ([sp] + (canonical + ([sp] + open)))))))
  {
  }

  /**
   * Read back word by word, the header ends by declaring the class
   * `<SimpleName>Impl` as implementing the interface's canonical name and
   * opening its body, whatever package clause comes before; names contain no
   * spaces in Java.
   */
  lemma HeaderDeclaresClass(token: TypeToken)
    requires Space !in token.simpleName && Space !in token.canonicalName
    ensures var w := Words(CreateHeader(token));
      && |w| >= 5
      && w[|w| - 5] == Lit("class")
      && w[|w| - 4] == CreateImplName(token)
      && w[|w| - 3] == Lit("implements")
      && w[|w| - 2] == token.canonicalName
      && w[|w| - 1] == Lit("{") + NL
  {
    var impl, canon, close := CreateImplName(token), token.canonicalName, Lit("{") + NL;
    var front := CreatePackage(token) + Lit("public");
    assert CreateHeader(token)
        == (front + ([Space] + Lit("class")))
           + ([Space] + (impl + ([Space] + (Lit("implements") + ([Space] + (canon + ([Space] + close)))))))
    by {
      DeclarationLiterals();
      HeaderRegrouped(CreatePackage(token), Lit("public"), Lit("class"), impl,
                      Lit("implements"), canon, close, Space);
    }
    LitAbsent("class", ' ');
    LitAbsent("implements", ' ');
    LitAbsent("{", ' ');
    LitAbsent("Impl", ' ');
    LastWords(front, Lit("class"), impl, Lit("implements"), canon, close);
  }

  /** A text that ends with five space-free words, each after a space, has them as its last words. */
  lemma LastWords(front: JString, w1: JString, w2: JString, w3: JString, w4: JString, w5: JString)
    requires Space !in w1 && Space !in w2 && Space !in w3 && Space !in w4 && Space !in w5
    ensures Words((front + ([Space] + w1)) + ([Space] + (w2 + ([Space] + (w3 + ([Space] + (w4 + ([Space] + w5))))))))
      == (Words(front) + [w1]) + ([w2] + ([w3] + ([w4] + [w5])))
  {
    var r3 := w4 + ([Space] + w5);
    var r2 := w3 + ([Space] + r3);
    var r1 := w2 + ([Space] + r2);
    SplitAround(w4, w5, Space);
    SplitNone(w4, Space);
    SplitNone(w5, Space);
    SplitAround(w3, r3, Space);
    SplitNone(w3, Space);
    SplitAround(w2, r2, Space);
    SplitNone(w2, Space);
    SplitAround(front, w1, Space);
    SplitNone(w1, Space);
    SplitAround(front + ([Space] + w1), r1, Space);
  }

  /** The header opens with a package clause exactly when the interface has a package. */
  lemma HeaderPackageClause(token: TypeToken)
    ensures Lit("package ") <= CreateHeader(token) <==> token.packageName != []
  {
    if token.packageName == [] {
      HeaderWithoutPackage(token);
      assert CreateHeader(token)[1] == Lit("public class ")[1] != Lit("package ")[1];
    } else {
      var clause := Lit("package ");
      assert CreatePackage(token) == clause + (token.packageName + Lit(";") + NL);
      ConcatEnds(clause, token.packageName + Lit(";") + NL, ClassDeclaration(token));
    }
  }

  /** Without a package the header is the class declaration, which opens with `public`. */
  lemma HeaderWithoutPackage(token: TypeToken)
    requires token.packageName == []
    ensures Lit("public class ") <= CreateHeader(token)
  {
    var opening := Lit("public class ");
    assert ClassDeclaration(token) == opening + (CreateImplName(token) + Lit(" implements ") + token.canonicalName + Lit(" {") + NL);
  }

  /**
   * `createFileName`: the package-qualified name of the implementation with
   * every dot replaced by the separator, and the extension appended after the
   * replacement.
   */
  function CreateFileName(token: TypeToken, separator: JString, fileExtension: JString): JString
  {
    Replace(token.packageName + [Dot] + CreateImplName(token), Dot, separator) + fileExtension
  }

  /**
   * The file name ends with the extension; for the unnamed package it starts
   * with a separator; and when the separator has no dot, no dot is left
   * before the extension.
   */
  lemma FileNameShape(token: TypeToken, separator: JString, fileExtension: JString)
    ensures var r := CreateFileName(token, separator, fileExtension);
      EndsWith(r, fileExtension)
      && (token.packageName == [] ==> separator <= r)
      && (Dot !in separator ==> Dot !in r[..|r| - |fileExtension|])
  {
    var stem := Replace(token.packageName + [Dot] + CreateImplName(token), Dot, separator);
    var r := stem + fileExtension;
    assert r[..|stem|] == stem && r[|stem|..] == fileExtension;
    if token.packageName == [] {
      FileNameLayout(token, separator, fileExtension);
      assert Replace(token.packageName, Dot, separator) == [];
    }
  }

  /**
   * The file name is the package's path, a separator, the class name's path
   * and the extension; for the unnamed package the package path is empty and
   * the name starts with the separator.
   */
  lemma FileNameLayout(token: TypeToken, separator: JString, fileExtension: JString)
    ensures CreateFileName(token, separator, fileExtension)
      == Replace(token.packageName, Dot, separator) + separator
         + Replace(CreateImplName(token), Dot, separator) + fileExtension
  {
    ReplaceAround(token.packageName, CreateImplName(token), Dot, separator);
  }

  /**
   * With a one-character separator that occurs in no name, the file name
   * determines the class: turning the separators back into dots gives the
   * package-qualified name of the implementation.
   */
  lemma FileNameDeterminesClass(token: TypeToken, sep: jchar, fileExtension: JString)
    requires sep !in token.packageName + [Dot] + CreateImplName(token)
    ensures var r := CreateFileName(token, [sep], fileExtension);
      Replace(r[..|r| - |fileExtension|], sep, [Dot]) == token.packageName + [Dot] + CreateImplName(token)
  {
    var qualified := token.packageName + [Dot] + CreateImplName(token);
    var r := CreateFileName(token, [sep], fileExtension);
    assert r[..|r| - |fileExtension|] == Replace(qualified, Dot, [sep]);
    ReplaceInverse(qualified, Dot, sep);
  }

  // ---------------------------------------------------------------------------
  // implement
  // ---------------------------------------------------------------------------

  /** The text of the implementation before escaping: header, methods, closing brace. */
  function GeneratedUnit(token: TypeToken): JString
  {
    CreateHeader(token) + MethodsText(GetMethods(token)) + Lit("}")
  }

  /** Escaping the three pieces one after the other escapes the whole unit. */
  lemma EncodeUnit(token: TypeToken)
    ensures Encode(GeneratedUnit(token))
      == Encode(CreateHeader(token)) + Encode(MethodsText(GetMethods(token))) + Encode(Lit("}"))
  {
    var h, m, c := CreateHeader(token), MethodsText(GetMethods(token)), Lit("}");
    EncodeAppend(h, m);
    EncodeAppend(h + m, c);
  }

  /**
   * The write sequence of `implement`: the escaped header, the escaped
   * methods and the escaped closing brace, appended in that order.
   */
  method WriteUnit(token: TypeToken) returns (written: JString)
    ensures written == Encode(GeneratedUnit(token))
  {
    written := [];
    var header := ConvertToUnicode(CreateHeader(token));
    written := written + header;
    assert written == header;
    var methods := ImplementMethods(token);
    var body := ConvertToUnicode(methods);
    written := written + body;
    var close := ConvertToUnicode(Lit("}"));
    written := written + close;
    EncodeUnit(token);
  }

  /**
   * `implement`: reject a type that is not an interface, then a private one,
   * both before anything is written; otherwise write the unit to the file
   * named by `createFileName(token, separator, ".java")`.
   */
  method Implement(token: TypeToken, separator: JString) returns (r: Result<SourceFile>)
    ensures !token.isInterface ==> r == Failure(InterfaceExpected)
    ensures token.isInterface && token.isPrivate ==> r == Failure(PrivateInterface)
    ensures token.isInterface && !token.isPrivate ==>
      r == Success(SourceFile(CreateFileName(token, separator, Lit(".java")), Encode(GeneratedUnit(token))))
    ensures r.Success? ==> forall i | 0 <= i < |r.value.text| :: r.value.text[i] < 128
  {
    if !token.isInterface {
      return Failure(InterfaceExpected);
    }
    if token.isPrivate {
      return Failure(PrivateInterface);
    }
    var path := CreateFileName(token, separator, Lit(".java"));
    var text := WriteUnit(token);
    EncodeIsAscii(GeneratedUnit(token));
    r := Success(SourceFile(path, text));
  }

  /**
   * Every abstract method of the interface is implemented: its indented body
   * stands in the unit after the header and the bodies of the abstract
   * methods reflection lists before it, and before those listed after it.
   */
  lemma EveryAbstractMethodImplemented(token: TypeToken, m: MethodInfo)
    requires m in token.methods && m.isAbstract
    ensures exists k | 0 <= k < |GetMethods(token)| ::
      && GetMethods(token)[k] == m
      && GeneratedUnit(token) == CreateHeader(token)
         + (MethodsText(GetMethods(token)[..k]) + IndentedMethod(m) + MethodsText(GetMethods(token)[k + 1..]))
         + Lit("}")
  {
    var ms := GetMethods(token);
    AbstractMethodsFilter(token.methods);
    var k :| 0 <= k < |ms| && ms[k] == m;
    MethodsTextAt(ms, k);
  }

  /** An interface without abstract methods yields its header and a lone closing brace. */
  lemma EmptyInterfaceUnit(token: TypeToken)
    requires forall m | m in token.methods :: !m.isAbstract
    ensures GeneratedUnit(token) == CreateHeader(token) + Lit("}")
  {
    var ms := GetMethods(token);
    AbstractMethodsFilter(token.methods);
  }
}
