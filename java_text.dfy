/**
 * Java text as the generator sees it: a Java `String` is a sequence of UTF-16
 * code units (`char`), not of Unicode scalar values, so it is modelled here as
 * a sequence of 16-bit numbers rather than as a Dafny `string`.
 *
 * The module also holds the two string operations of the Java library that
 * the generator relies on, `String.replace` with a one-character target and
 * `Collectors.joining`, each with an independent inverse.
 */
module JavaText {

  /** A Java `char`: one UTF-16 code unit. */
  newtype jchar = x: int | 0 <= x < 0x1_0000

  /** A Java `String`. */
  type JString = seq<jchar>

  /** The code unit of a character of a Dafny literal (all literals used here are ASCII). */
  function Code(c: char): jchar
  {
    if c as int < 0x1_0000 then c as int as jchar else 0xFFFD
  }

  /** A Dafny string literal as a Java string. */
  function Lit(s: string): (r: JString)
    ensures |r| == |s|
    ensures forall i | 0 <= i < |s| :: r[i] == Code(s[i])
  {
    seq(|s|, i requires 0 <= i < |s| => Code(s[i]))
  }

  const Backslash: jchar := Code('\\')
  const LowerU: jchar := Code('u')
  const Dot: jchar := Code('.')
  const Comma: jchar := Code(',')
  const Space: jchar := Code(' ')

  /** `%n` of `String.format`: the platform line separator, fixed to a line feed. */
  const NL: JString := Lit("\n")

  /** A character missing from a literal is missing from the Java string it denotes. */
  lemma LitAbsent(s: string, c: char)
    requires c !in s && c as int < 0xFFFD
    ensures Code(c) !in Lit(s)
  {
    forall i | 0 <= i < |s|
      ensures Lit(s)[i] != Code(c)
    {
      assert s[i] != c;
    }
  }

  /** `s.endsWith(suffix)`. */
  predicate EndsWith(s: JString, suffix: JString)
  {
    |suffix| <= |s| && s[|s| - |suffix|..] == suffix
  }

  lemma ConcatAssoc(a: JString, b: JString, c: JString)
    ensures a + b + c == a + (b + c)
  {
  }

  /** A concatenation of three parts starts with the first and ends with the last. */
  lemma ConcatEnds(a: JString, b: JString, c: JString)
    ensures a <= a + b + c
    ensures EndsWith(a + b + c, c)
  {
    assert (a + b + c)[..|a|] == a;
    assert (a + b + c)[|a + b|..] == c;
  }

  /** Number of occurrences of `c` in `s`. */
  function CountOf(s: JString, c: jchar): (n: nat)
    ensures n <= |s|
    ensures n == 0 <==> c !in s
  {
    if s == [] then 0 else (if s[0] == c then 1 else 0) + CountOf(s[1..], c)
  }

  lemma {:induction false} CountOfAppend(a: JString, b: JString, c: jchar)
    ensures CountOf(a + b, c) == CountOf(a, c) + CountOf(b, c)
  {
    if a == [] {
      assert a + b == b;
    } else {
      assert (a + b)[1..] == a[1..] + b;
      CountOfAppend(a[1..], b, c);
    }
  }

  // ---------------------------------------------------------------------------
  // A StringBuilder filled in a loop
  // ---------------------------------------------------------------------------

  /**
   * What a `StringBuilder` holds after `f(x)` has been appended for each `x`
   * of `xs` in turn.
   */
  function ConcatMap<T>(f: T -> JString, xs: seq<T>): JString
  {
    if xs == [] then [] else ConcatMap(f, xs[..|xs| - 1]) + f(xs[|xs| - 1])
  }

  /** Appending element by element works piecewise: it distributes over concatenation. */
  lemma {:induction false} ConcatMapAppend<T>(f: T -> JString, a: seq<T>, b: seq<T>)
    ensures ConcatMap(f, a + b) == ConcatMap(f, a) + ConcatMap(f, b)
    decreases |b|
  {
    if b == [] {
      assert a + b == a;
    } else {
      var b' := b[..|b| - 1];
      assert (a + b)[..|a + b| - 1] == a + b';
      ConcatMapAppend(f, a, b');
    }
  }

  // ---------------------------------------------------------------------------
  // String.replace(".", separator)
  // ---------------------------------------------------------------------------

  /**
   * `s.replace(target, replacement)` for a one-character target: every
   * occurrence of `target`, from left to right, becomes `replacement`.
   */
  function Replace(s: JString, target: jchar, replacement: JString): (r: JString)
    ensures target !in replacement ==> target !in r
  {
    if s == [] then []
    else (if s[0] == target then replacement else [s[0]]) + Replace(s[1..], target, replacement)
  }

  /** Replacement works piecewise: it distributes over concatenation. */
  lemma {:induction false} ReplaceAppend(a: JString, b: JString, target: jchar, replacement: JString)
    ensures Replace(a + b, target, replacement) == Replace(a, target, replacement) + Replace(b, target, replacement)
  {
    if a == [] {
      assert a + b == b;
    } else {
      assert (a + b)[1..] == a[1..] + b;
      ReplaceAppend(a[1..], b, target, replacement);
    }
  }

  /** Replacing in `a`, one `target` and `b` replaces that `target` and works on `a` and `b` apart. */
  lemma ReplaceAround(a: JString, b: JString, target: jchar, replacement: JString)
    ensures Replace(a + [target] + b, target, replacement)
      == Replace(a, target, replacement) + replacement + Replace(b, target, replacement)
  {
    ReplaceAppend(a + [target], b, target, replacement);
    ReplaceAppend(a, [target], target, replacement);
    assert [target][1..] == [];
  }

  /** A string without the target is left as it is. */
  lemma {:induction false} ReplaceAbsent(s: JString, target: jchar, replacement: JString)
    requires target !in s
    ensures Replace(s, target, replacement) == s
  {
    if s != [] {
      ReplaceAbsent(s[1..], target, replacement);
    }
  }

  /**
   * Replacing `target` by a character `c` that does not occur in `s` loses
   * nothing: replacing `c` back by `target` restores `s`.
   */
  lemma {:induction false} ReplaceInverse(s: JString, target: jchar, c: jchar)
    requires c !in s
    ensures Replace(Replace(s, target, [c]), c, [target]) == s
  {
    if s != [] {
      var head := if s[0] == target then [c] else [s[0]];
      ReplaceAppend(head, Replace(s[1..], target, [c]), c, [target]);
      ReplaceInverse(s[1..], target, c);
    }
  }

  // ---------------------------------------------------------------------------
  // Collectors.joining(separator)
  // ---------------------------------------------------------------------------

  /** `Collectors.joining(sep)`: the pieces in order with `sep` between neighbours. */
  function Join(xs: seq<JString>, sep: JString): JString
  {
    if |xs| == 0 then []
    else if |xs| == 1 then xs[0]
    else xs[0] + sep + Join(xs[1..], sep)
  }

  /** A character absent from every piece and from the separator is absent from the join. */
  lemma {:induction false} JoinAbsent(xs: seq<JString>, sep: JString, c: jchar)
    requires forall i | 0 <= i < |xs| :: c !in xs[i]
    requires c !in sep
    ensures c !in Join(xs, sep)
  {
    if |xs| > 1 {
      JoinAbsent(xs[1..], sep, c);
    }
  }

  /**
   * When the pieces do not contain `c` and the separator holds one, every
   * `c` of the join comes from a separator: n pieces carry n - 1 of them.
   */
  lemma {:induction false} JoinCount(xs: seq<JString>, sep: JString, c: jchar)
    requires forall i | 0 <= i < |xs| :: c !in xs[i]
    requires CountOf(sep, c) == 1
    ensures CountOf(Join(xs, sep), c) == if |xs| == 0 then 0 else |xs| - 1
  {
    if |xs| > 1 {
      JoinCount(xs[1..], sep, c);
      CountOfAppend(xs[0], sep, c);
      CountOfAppend(xs[0] + sep, Join(xs[1..], sep), c);
    } else if |xs| == 1 {
      assert c !in xs[0];
    }
  }

  /** Position of the first `c` in `s`, or `|s|` when there is none. */
  function IndexOf(s: JString, c: jchar): (i: nat)
    ensures i <= |s|
    ensures i < |s| ==> s[i] == c
  {
    if s == [] then 0 else if s[0] == c then 0 else 1 + IndexOf(s[1..], c)
  }

  /** No `c` comes before the position `IndexOf` reports, so it is the first. */
  lemma {:induction false} IndexOfFirst(s: JString, c: jchar)
    ensures forall j | 0 <= j < IndexOf(s, c) :: s[j] != c
  {
    if s != [] && s[0] != c {
      IndexOfFirst(s[1..], c);
      assert forall j | 1 <= j < IndexOf(s, c) :: s[j] == s[1..][j - 1];
    }
  }

  /** The first `c` of `a + b` is the first `c` of `b` when `a` has none. */
  lemma {:induction false} IndexOfAppend(a: JString, b: JString, c: jchar)
    requires c !in a
    ensures IndexOf(a + b, c) == |a| + IndexOf(b, c)
  {
    if a == [] {
      assert a + b == b;
    } else {
      assert (a + b)[0] == a[0];
      assert (a + b)[1..] == a[1..] + b;
      IndexOfAppend(a[1..], b, c);
    }
  }

  /** The first `c` of `a + b` is the first `c` of `a` when `a` has one. */
  lemma {:induction false} IndexOfPrefix(a: JString, b: JString, c: jchar)
    requires IndexOf(a, c) < |a|
    ensures IndexOf(a + b, c) == IndexOf(a, c)
  {
    assert (a + b)[0] == a[0];
    if a[0] != c {
      assert (a + b)[1..] == a[1..] + b;
      IndexOfPrefix(a[1..], b, c);
    }
  }

  /**
   * The reading direction of `Join`: cut `s` at each occurrence of the first
   * character of `sep`, skipping the whole separator.
   */
  function Split(s: JString, sep: JString): seq<JString>
    requires sep != []
    decreases |s|
  {
    var i := IndexOf(s, sep[0]);
    if i == |s| then [s]
    else [s[..i]] + Split(s[if i + |sep| <= |s| then i + |sep| else |s|..], sep)
  }

  /**
   * A non-empty list of pieces none of which contains the separator's first
   * character is recovered, in order, from its join.
   */
  lemma {:induction false} SplitJoin(xs: seq<JString>, sep: JString)
    requires |xs| >= 1 && sep != []
    requires forall i | 0 <= i < |xs| :: sep[0] !in xs[i]
    ensures Split(Join(xs, sep), sep) == xs
  {
    var s := Join(xs, sep);
    if |xs| == 1 {
      assert sep[0] !in xs[0];
      IndexOfAppend(xs[0], [], sep[0]);
      assert xs[0] + [] == xs[0];
    } else {
      var rest := Join(xs[1..], sep);
      assert s == xs[0] + (sep + rest);
      assert sep[0] !in xs[0];
      IndexOfAppend(xs[0], sep + rest, sep[0]);
      assert (sep + rest)[0] == sep[0];
      assert s[..|xs[0]|] == xs[0];
      assert s[|xs[0]| + |sep|..] == rest;
      SplitJoin(xs[1..], sep);
      assert [xs[0]] + xs[1..] == xs;
    }
  }

  /** A text without the separator character is one piece. */
  lemma SplitNone(a: JString, c: jchar)
    requires c !in a
    ensures Split(a, [c]) == [a]
  {
  }

  /** With a one-character separator, splitting cuts at the first occurrence and goes on after it. */
  lemma SplitFirst(s: JString, c: jchar)
    requires IndexOf(s, c) < |s|
    ensures Split(s, [c]) == [s[..IndexOf(s, c)]] + Split(s[IndexOf(s, c) + 1..], [c])
  {
  }

  /** Splitting a text whose first separator follows `a` cuts off `a`. */
  lemma SplitAfterFree(a: JString, b: JString, c: jchar)
    requires c !in a
    ensures Split(a + ([c] + b), [c]) == [a] + Split(b, [c])
  {
    var s := a + ([c] + b);
    IndexOfAppend(a, [c] + b, c);
    assert ([c] + b)[0] == c;
    SplitFirst(s, c);
    assert s[..|a|] == a;
    assert s[|a| + 1..] == b;
  }

  /** Splitting a text whose first separator lies inside `a` cuts `a` there. */
  lemma SplitInside(a: JString, b: JString, c: jchar)
    requires IndexOf(a, c) < |a|
    ensures var i := IndexOf(a, c);
      Split(a + b, [c]) == [a[..i]] + Split(a[i + 1..] + b, [c])
  {
    var s, i := a + b, IndexOf(a, c);
    IndexOfPrefix(a, b, c);
    SplitFirst(s, c);
    assert s[..i] == a[..i];
    assert s[i + 1..] == a[i + 1..] + b;
  }

  /**
   * With a one-character separator, splitting cuts at every occurrence: the
   * pieces of `a`, one separator and `b` are those of `a` followed by those of `b`.
   */
  lemma {:induction false} SplitAround(a: JString, b: JString, c: jchar)
    ensures Split(a + ([c] + b), [c]) == Split(a, [c]) + Split(b, [c])
    decreases |a|
  {
    var i := IndexOf(a, c);
    if i == |a| {
      IndexOfFirst(a, c);
      assert c !in a;
      SplitNone(a, c);
      SplitAfterFree(a, b, c);
    } else {
      SplitFirst(a, c);
      SplitInside(a, [c] + b, c);
      SplitAround(a[i + 1..], b, c);
    }
  }
}
