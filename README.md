# Implementor: the text-generation core, in Dafny

`Implementor` takes the `Class` token of a Java interface and writes the
source of a class `<SimpleName>Impl`. The class goes in the same package and
implements every abstract method of the interface. Each generated method has
a one-statement body that returns the default value of its return type. This
project models the part of `Implementor` that produces text:

- the checks `implement` makes before it opens a file;
- the name of the file the source goes to;
- the header: the package clause and the class declaration;
- the method bodies and their parameter lists;
- the filter that keeps the abstract methods;
- the escaper `convertToUnicode`, through which every piece of text is written.

The modules are:

- `JavaText` (`java_text.dfy`). A Java `String` is a sequence of UTF-16 code
  units (`jchar`, a number below 0x10000). The module holds the library
  operations the generator relies on: `String.replace` with a one-character
  target, `Collectors.joining`, and what a `StringBuilder` holds after a
  loop. Each comes with its inverse or with the laws the proofs use.
- `UnicodeEscape` (`unicode_escape.dfy`). The escaper is a loop, proved
  against the function `Encode`. `Unescape` reads Unicode escapes back as a
  Java compiler does, following section 3.3 of The Java Language
  Specification, and serves as the escaper's inverse.
- `Reflection` (`reflection.dfy`). What reflection reports about the
  interface, as plain data: the package, the names, the interface and private
  flags, and the methods with their return and parameter types.
- `Implementor` (`implementor.dfy`). The renderers, the method filter, the
  builder loop of `implementMethods`, the file name, and `implement`.

The loops of the source are methods with loop invariants: `convertToUnicode`
and `implementMethods` each fill a `StringBuilder` one element at a time.
Everything built from expressions alone is a function, and lemmas state its
properties.

## Model

| member | source | states |
|---|---|---|
| UnicodeEscape.EscapeChar | Implementor.java:255 | A code unit below 128 is copied. Any other code unit becomes six characters: a backslash, a `u`, and four lower-case hexadecimal digits whose value is the code unit. Every output character is below 128. |
| UnicodeEscape.Hex4 | Implementor.java:255 | `%04x` of a `char` is four lower-case hexadecimal digits that denote the char's value. |
| UnicodeEscape.ConvertToUnicode | Implementor.java:252-258 | The builder loop returns the escapes of the code units, in order (`Encode`). |
| UnicodeEscape.EncodeIsAscii | Implementor.java:252-258 | Every character of the escaped text is below 128. |
| UnicodeEscape.EncodeAppend | Implementor.java:254-256 | Escaping works code unit by code unit, so escaping `a + b` gives the escape of `a` followed by the escape of `b`. |
| UnicodeEscape.EncodeLength | Implementor.java:254-256 | The output is the input's length plus five for each code unit at or above 128. |
| UnicodeEscape.EncodeIdentity | Implementor.java:254-256 | The escaper leaves a text unchanged exactly when every code unit is below 128. |
| UnicodeEscape.UnescapeEncode | Implementor.java:252-258 | Reading the escapes back restores any text that has no backslash. |
| UnicodeEscape.UnescapeNeedsNoBackslash | Implementor.java:255 | Without the no-backslash condition the round trip fails: the six ASCII characters `\u0041` (a backslash, a `u` and the digits `0041`) pass through the escaper unchanged and read back as the single character `A`. |
| Implementor.DefaultValueCases | Implementor.java:203-215 | `false` is the default exactly for `boolean`. Empty text is the default exactly for `void`. `0` is the default exactly for the other primitives. `null` is the default exactly for reference types. |
| Implementor.GetParameters | Implementor.java:192-196 | The parameter list is empty exactly when the method has no parameters. |
| Implementor.ParametersSplitBack | Implementor.java:192-196 | Splitting a non-empty parameter list at `", "` gives back `"<type> <name>"` for each parameter, in declaration order. |
| Implementor.ParametersSeparatorCount | Implementor.java:192-196 | n parameters are separated by exactly n - 1 commas. |
| Implementor.MethodBodyReturns | Implementor.java:182-185 | Reading the text of any generated method back, the word after the last space, up to its `;`, is the default value of the method's return type. |
| Implementor.BareReturnIffVoid | Implementor.java:182-185 | The return statement is the bare ` return ;` exactly when the return type is `void`. |
| Implementor.MethodBodyParameters | Implementor.java:182-185 | The text between a method's parentheses is its parameter list. It is empty exactly when the method has no parameters. |
| Implementor.AbstractMethodsFilter | Implementor.java:172-175 | `getMethods` keeps every abstract method reflection reports and nothing else. |
| Implementor.AbstractMethodsAppend | Implementor.java:172-175 | The filter keeps reflection's order: filtering a concatenation concatenates the filtered parts. |
| Implementor.MethodsTextAt | Implementor.java:157-165 | The methods' text holds each method's indented body, between the bodies of the methods before it and the bodies of those after it. |
| Implementor.MethodsTextStep | Implementor.java:159-161 | One more method appends `TAB` and its body to the text of the methods before it. |
| Implementor.ImplementMethods | Implementor.java:157-165 | The builder loop appends `TAB` and the body of each abstract method, in reflection's order. |
| Implementor.ImplNameInjective | Implementor.java:232-234 | Two interfaces get the same implementation name exactly when they have the same simple name. |
| Implementor.CreatePackage | Implementor.java:241-245 | The package clause is empty exactly when the package name is empty. |
| Implementor.HeaderDeclaresClass | Implementor.java:222-225 | When the names contain no spaces, the header read word by word ends with `class`, `<Simple>Impl`, `implements`, the canonical name, and `{` with a line end. This holds whatever package clause comes first. |
| Implementor.HeaderPackageClause | Implementor.java:222-225 | The header starts with `package ` exactly when the interface has a package. |
| Implementor.FileNameShape | Implementor.java:147-150 | The file name ends with the extension, dot included. For the unnamed package it starts with the separator. With a dot-free separator, no dot is left before the extension. |
| Implementor.FileNameLayout | Implementor.java:147-150 | The file name is the package with dots replaced, a separator, the implementation name with dots replaced, and the extension. |
| Implementor.FileNameDeterminesClass | Implementor.java:147-150 | Take a one-character separator that occurs in no name. Turning it back into dots in the file name, minus the extension, gives `<package>.<Simple>Impl`. |
| Implementor.WriteUnit | Implementor.java:91-94 | The three writes produce the escape of header, methods and `}` taken together. |
| Implementor.Implement | Implementor.java:84-99 | A type that is not an interface is rejected with `Interface expected`. A private interface is rejected with `Can not implement private interface`. Both checks run before anything is written. Otherwise the escaped unit goes to `createFileName(token, separator, ".java")`, and all of its characters are below 128. |
| Implementor.EveryAbstractMethodImplemented | Implementor.java:91-94 | Every abstract method of the interface has its indented body in the unit. It stands after the header and the methods listed before it. |
| Implementor.EmptyInterfaceUnit | Implementor.java:157-175 | An interface without abstract methods yields its header followed by a lone `}`. |
| JavaText.SplitJoin | Implementor.java:194-196 | Joining pieces that do not contain the separator's first character, then splitting the result, gives back the pieces. |
| JavaText.ReplaceInverse | Implementor.java:148 | Replacing the dots by a character absent from the name, then replacing it back, restores the name. |
| JavaText.ConcatMapAppend | Implementor.java:157-165 | A builder filled element by element over `a + b` holds what it holds for `a` followed by what it holds for `b`. |

## Left out

- `implementJar` (Implementor.java:44-77) is not modelled. It creates directories, writes a JAR and copies files, which is file-system work. Its entry name is `createFileName(token, "/", ".class")`, which `CreateFileName` covers with any separator.
- `compile` (Implementor.java:107-122) is not modelled. It calls the system Java compiler and resolves code-source URIs; these are foreign calls.
- `getPath` (Implementor.java:132-138) is not modelled. `Implement` returns the file name relative to the output root. Resolving it against the root and creating its parent directories is file-system work. The model does not follow `Path.resolve` for the leading separator of the unnamed package.
- The `BufferedWriter` is not modelled, and neither is the `IOException` that `implement` prints and swallows (Implementor.java:91-98). `Implement` returns what the three writes produce. A failed write, which the source reports only on standard error, is not represented.
- The `CLEANER` visitor (Implementor.java:263-269) is not modelled, and no clean-up guarantee is stated. The visitor deletes files only, never directories.
- Reflection is not modelled. Canonical names, simple names, package names, parameter names and the abstract flag are taken as reflection reports them. Among them is the `null` canonical name of a local or anonymous class, which `String.format` would print as `null`.
- The commented-out `@Deprecated` filter (Implementor.java:173) is not modelled because it is dead code.
- `%n` is fixed to a line feed (`NL`). `File.separator` is the `separator` parameter of `Implement`.
- UnicodeEscape.Unescape does not cover every reading rule of section 3.3 of The Java Language Specification. It accepts exactly one `u`, and it does not apply the rule that a backslash preceded by an odd number of backslashes starts no escape. The round trip it is used for covers text without backslashes, where that rule never applies.
- UnicodeEscape.UnescapeEncode: the round trip is stated only for text without a backslash. The escaper passes backslashes through unchanged, so it is not injective (see `UnescapeNeedsNoBackslash`).
- Implementor.HeaderDeclaresClass: stated only for simple and canonical names without spaces. No Java name contains a space, and a name with one would be cut into several words.
