/** The string operations the JavaScript code relies on: `split` with a
    string separator, `trim`, number-to-text conversion, and the byte-wise
    ordering SQLite uses for `ORDER BY` on a TEXT column. */
module Text {
  import opened Wrappers

  /** `sep` occurs in `s` starting at index `j`. */
  predicate OccursAt(s: string, sep: string, j: int)
  {
    0 <= j && j + |sep| <= |s| && s[j..j + |sep|] == sep
  }

  /** `sep` occurs nowhere in `s`. */
  predicate Free(s: string, sep: string)
  {
    forall j | 0 <= j <= |s| :: !OccursAt(s, sep, j)
  }

  lemma {:induction false} OccursShift(s: string, sep: string, j: int)
    requires |s| > 0 && j >= 0
    ensures OccursAt(s, sep, j + 1) <==> OccursAt(s[1..], sep, j)
  {
    if 0 <= j && j + 1 + |sep| <= |s| {
      assert s[1..][j..j + |sep|] == s[j + 1..j + 1 + |sep|];
    }
  }

  /** The first index at which `sep` occurs in `s`, like `indexOf`. */
  function Find(s: string, sep: string): (r: Option<nat>)
    requires |sep| > 0
    ensures r.Some? ==> OccursAt(s, sep, r.value)
    ensures r.Some? ==> forall j :: 0 <= j < r.value ==> !OccursAt(s, sep, j)
    ensures r.None? <==> Free(s, sep)
    decreases |s|
  {
    if |s| < |sep| then None
    else if s[..|sep|] == sep then
      assert OccursAt(s, sep, 0);
      Some(0)
    else
      var rest := Find(s[1..], sep);
      assert !OccursAt(s, sep, 0);
      match rest
      case None =>
        assert Free(s, sep) by {
          forall j | 0 < j <= |s| ensures !OccursAt(s, sep, j) {
            OccursShift(s, sep, j - 1);
          }
        }
        None
      case Some(i) =>
        OccursShift(s, sep, i);
        forall j | 0 < j < i + 1 ensures !OccursAt(s, sep, j) {
          OccursShift(s, sep, j - 1);
        }
        Some(i + 1)
  }

  /** JavaScript's `s.split(sep)` for a non-empty separator: the pieces
      between the non-overlapping occurrences of `sep`, left to right. */
  function Split(s: string, sep: string): (parts: seq<string>)
    requires |sep| > 0
    ensures |parts| >= 1
    decreases |s|
  {
    match Find(s, sep)
    case None => [s]
    case Some(i) => [s[..i]] + Split(s[i + |sep|..], sep)
  }

  /** `parts.join(sep)`. */
  function Join(parts: seq<string>, sep: string): string
    requires |parts| >= 1
  {
    if |parts| == 1 then parts[0] else parts[0] + sep + Join(parts[1..], sep)
  }

  /** Joining a first part to at least one more. */
  lemma {:induction false} JoinCons(part: string, rest: seq<string>, sep: string)
    requires |rest| >= 1
    ensures Join([part] + rest, sep) == part + sep + Join(rest, sep)
  {
    assert ([part] + rest)[1..] == rest;
  }

  /** Joining a first part to at least one more, grouped to the right. */
  lemma {:induction false} JoinPrefix(part: string, rest: seq<string>, sep: string)
    requires |rest| >= 1
    ensures Join([part] + rest, sep) == part + (sep + Join(rest, sep))
  {
    JoinCons(part, rest, sep);
  }

  /** Three parts joined, each with the separator in front. */
  lemma {:induction false} JoinThree(a: string, b: string, c: string, sep: string)
    ensures sep + Join([a, b, c], sep) == (sep + a) + ((sep + b) + (sep + c))
  {
    JoinCons(a, [b, c], sep);
    JoinCons(b, [c], sep);
    assert [a] + [b, c] == [a, b, c];
    assert [b] + [c] == [b, c];
  }

  /** Four parts joined, each with the separator in front. */
  lemma {:induction false} JoinFour(a: string, b: string, c: string, d: string, sep: string)
    ensures sep + Join([a, b, c, d], sep) == (sep + a) + ((sep + b) + ((sep + c) + (sep + d)))
  {
    JoinCons(a, [b, c, d], sep);
    assert [a] + [b, c, d] == [a, b, c, d];
    JoinThree(b, c, d, sep);
  }

  /** Three parts joined, spelled with the separator folded into each. */
  lemma {:induction false} JoinThreeSpelled(a: string, b: string, c: string, sep: string,
                                            a': string, b': string, c': string)
    requires a' == sep + a && b' == sep + b && c' == sep + c
    ensures sep + Join([a, b, c], sep) == a' + (b' + c')
  {
    JoinThree(a, b, c, sep);
  }

  /** Four parts joined, spelled with the separator folded into each. */
  lemma {:induction false} JoinFourSpelled(a: string, b: string, c: string, d: string, sep: string,
                                           a': string, b': string, c': string, d': string)
    requires a' == sep + a && b' == sep + b && c' == sep + c && d' == sep + d
    ensures sep + Join([a, b, c, d], sep) == a' + (b' + (c' + d'))
  {
    JoinFour(a, b, c, d, sep);
  }

  /** Joining the pieces of a split with the same separator gives back the
      original string. */
  lemma {:induction false} JoinSplit(s: string, sep: string)
    requires |sep| > 0
    ensures Join(Split(s, sep), sep) == s
    decreases |s|
  {
    match Find(s, sep)
    case None =>
    case Some(i) =>
      var head, tail := s[..i], s[i + |sep|..];
      SplitAt(s, sep, i);
      JoinSplit(tail, sep);
      JoinCons(head, Split(tail, sep), sep);
      Around(s, sep, i);
  }

  /** One step of a split: the piece before the first occurrence, then the
      split of the rest. */
  lemma {:induction false} SplitAt(s: string, sep: string, i: nat)
    requires |sep| > 0 && Find(s, sep) == Some(i)
    ensures i + |sep| <= |s|
    ensures Split(s, sep) == [s[..i]] + Split(s[i + |sep|..], sep)
  {
  }

  /** The text around an occurrence of the separator. */
  lemma {:induction false} Around(s: string, sep: string, i: nat)
    requires OccursAt(s, sep, i)
    ensures s == s[..i] + sep + s[i + |sep|..]
  {
    assert s == s[..i] + s[i..i + |sep|] + s[i + |sep|..];
  }

  /** Every piece of a split is free of the separator, except that the
      first occurrence inside a piece would have been found first. */
  lemma {:induction false} SplitPartsFree(s: string, sep: string)
    requires |sep| > 0
    ensures forall k :: 0 <= k < |Split(s, sep)| ==> Free(Split(s, sep)[k], sep)
    decreases |s|
  {
    match Find(s, sep)
    case None =>
    case Some(i) =>
      var head, tail := s[..i], s[i + |sep|..];
      SplitAt(s, sep, i);
      SplitPartsFree(tail, sep);
      PrefixFree(s, sep, i);
      forall k | 0 <= k < |Split(s, sep)| ensures Free(Split(s, sep)[k], sep) {
        if k > 0 { assert Split(s, sep)[k] == Split(tail, sep)[k - 1]; }
      }
  }

  /** The text before the first occurrence is free of the separator. */
  lemma {:induction false} PrefixFree(s: string, sep: string, i: nat)
    requires |sep| > 0 && i <= |s|
    requires forall j :: 0 <= j < i ==> !OccursAt(s, sep, j)
    ensures Free(s[..i], sep)
  {
    forall j | 0 <= j <= i ensures !OccursAt(s[..i], sep, j) {
      if OccursAt(s[..i], sep, j) {
        assert s[..i][j..j + |sep|] == s[j..j + |sep|];
        assert OccursAt(s, sep, j);
      }
    }
  }

  /** An occurrence in a suffix is an occurrence in the whole string. */
  lemma {:induction false} SuffixOccurs(s: string, sep: string, m: nat, k: int)
    requires m <= |s| && OccursAt(s[m..], sep, k)
    ensures OccursAt(s, sep, m + k)
  {
    assert s[m..][k..k + |sep|] == s[m + k..m + k + |sep|];
  }

  /** A separator that occurs exactly once splits the string into the text
      before it and the text after it. */
  lemma {:induction false} SplitOnce(s: string, sep: string, j: nat)
    requires |sep| > 0 && OccursAt(s, sep, j)
    requires forall k :: 0 <= k <= |s| && k != j ==> !OccursAt(s, sep, k)
    ensures Split(s, sep) == [s[..j], s[j + |sep|..]]
  {
    FindOnly(s, sep, j);
    SplitAt(s, sep, j);
    TailFree(s, sep, j);
    SplitFree(s[j + |sep|..], sep);
  }

  /** The only occurrence is the first one. */
  lemma {:induction false} FindOnly(s: string, sep: string, j: nat)
    requires |sep| > 0 && OccursAt(s, sep, j)
    requires forall k :: 0 <= k <= |s| && k != j ==> !OccursAt(s, sep, k)
    ensures Find(s, sep) == Some(j)
  {
    var f := Find(s, sep);
    assert f.Some? by {
      assert !Free(s, sep) by { assert 0 <= j <= |s|; }
    }
    assert OccursAt(s, sep, f.value);
  }

  /** After the only occurrence the separator does not occur again. */
  lemma {:induction false} TailFree(s: string, sep: string, j: nat)
    requires |sep| > 0 && OccursAt(s, sep, j)
    requires forall k :: 0 <= k <= |s| && k != j ==> !OccursAt(s, sep, k)
    ensures Free(s[j + |sep|..], sep)
  {
    var tail := s[j + |sep|..];
    forall k | 0 <= k <= |tail| ensures !OccursAt(tail, sep, k) {
      if OccursAt(tail, sep, k) {
        SuffixOccurs(s, sep, j + |sep|, k);
      }
    }
  }

  /** A string without the separator splits into itself alone. */
  lemma {:induction false} SplitFree(s: string, sep: string)
    requires |sep| > 0 && Free(s, sep)
    ensures Split(s, sep) == [s]
  {
  }

  /** A string in which the separator occurs splits into at least two pieces. */
  lemma {:induction false} SplitOccurs(s: string, sep: string, j: int)
    requires |sep| > 0 && OccursAt(s, sep, j)
    ensures |Split(s, sep)| >= 2
  {
    assert !Free(s, sep);
  }

  /** A separator occurring twice without overlap splits the text into at
      least three pieces. */
  lemma {:induction false} SplitTwice(s: string, sep: string, j1: int, j2: int)
    requires |sep| > 0 && OccursAt(s, sep, j1) && OccursAt(s, sep, j2) && j1 + |sep| <= j2
    ensures |Split(s, sep)| >= 3
  {
    var i := Find(s, sep).value;
    var tail := s[i + |sep|..];
    assert i <= j1;
    assert tail[j2 - i - |sep|..j2 - i - |sep| + |sep|] == s[j2..j2 + |sep|];
    SplitOccurs(tail, sep, j2 - i - |sep|);
  }

  /** Text that lacks the separator's first character, followed by text free
      of the separator, is free of it. */
  lemma {:induction false} FreePrefixed(a: string, b: string, sep: string)
    requires |sep| > 0 && sep[0] !in a && Free(b, sep)
    ensures Free(a + b, sep)
  {
    forall j | 0 <= j <= |a + b| ensures !OccursAt(a + b, sep, j) {
      if OccursAt(a + b, sep, j) {
        assert (a + b)[j] == sep[0];
        if j >= |a| {
          assert (a + b)[j..j + |sep|] == b[j - |a|..j - |a| + |sep|];
          assert OccursAt(b, sep, j - |a|);
        }
      }
    }
  }

  /** Splitting on a one-character separator peels off the text before its
      first occurrence. */
  lemma {:induction false} SplitCharCons(a: string, c: char, b: string)
    requires c !in a
    ensures Split(a + [c] + b, [c]) == [a] + Split(b, [c])
  {
    var s := a + [c] + b;
    assert OccursAt(s, [c], |a|) by { assert s[|a|..|a| + 1] == [c]; }
    forall j | 0 <= j < |a| ensures !OccursAt(s, [c], j) {
      assert s[j..j + 1] == [a[j]];
    }
    assert Find(s, [c]) == Some(|a|);
    assert s[..|a|] == a;
    assert s[|a| + 1..] == b;
  }

  /** A one-character separator is free in a string exactly when the
      character does not occur in it. */
  lemma {:induction false} FreeChar(s: string, c: char)
    ensures Free(s, [c]) <==> c !in s
  {
    if c in s {
      var j :| 0 <= j < |s| && s[j] == c;
      assert s[j..j + 1] == [c];
      assert OccursAt(s, [c], j);
    } else {
      forall j ensures !OccursAt(s, [c], j) {
        if 0 <= j && j + 1 <= |s| { assert s[j..j + 1] == [s[j]]; }
      }
    }
  }

  /** With a one-character separator, splitting a concatenation around one
      separator splits each side on its own. */
  lemma {:induction false} SplitCharConcat(a: string, c: char, b: string)
    ensures Split(a + [c] + b, [c]) == Split(a, [c]) + Split(b, [c])
    decreases |a|
  {
    if c !in a {
      FreeChar(a, c);
      SplitCharCons(a, c, b);
      SplitFree(a, [c]);
    } else {
      var i := FirstIndexOf(a, c);
      var head, tail := a[..i], a[i + 1..];
      assert a == head + [c] + tail;
      calc {
        Split(a + [c] + b, [c]);
        { assert a + [c] + b == head + [c] + (tail + [c] + b); }
        Split(head + [c] + (tail + [c] + b), [c]);
        { SplitCharCons(head, c, tail + [c] + b); }
        [head] + Split(tail + [c] + b, [c]);
        { SplitCharConcat(tail, c, b); }
        [head] + (Split(tail, [c]) + Split(b, [c]));
        ([head] + Split(tail, [c])) + Split(b, [c]);
        { SplitCharCons(head, c, tail); }
        Split(a, [c]) + Split(b, [c]);
      }
    }
  }

  /** The first position of a character that occurs in the text. */
  function FirstIndexOf(a: string, c: char): (i: nat)
    requires c in a
    ensures i < |a| && a[i] == c && c !in a[..i]
  {
    if a[0] == c then 0
    else
      var i := FirstIndexOf(a[1..], c);
      assert a[..i + 1] == [a[0]] + a[1..][..i];
      i + 1
  }

  /** Splitting a join on a one-character separator that no part contains
      gives back the parts. */
  lemma {:induction false} SplitJoin(parts: seq<string>, c: char)
    requires |parts| >= 1
    requires forall k :: 0 <= k < |parts| ==> c !in parts[k]
    ensures Split(Join(parts, [c]), [c]) == parts
    decreases |parts|
  {
    if |parts| == 1 {
      FreeChar(parts[0], c);
      SplitFree(parts[0], [c]);
    } else {
      SplitJoin(parts[1..], c);
      SplitCharCons(parts[0], c, Join(parts[1..], [c]));
    }
  }

  /** The first piece of a split is a prefix of the text. */
  lemma {:induction false} SplitFirstIsPrefix(s: string, sep: string)
    requires |sep| > 0
    ensures |Split(s, sep)[0]| <= |s| && Split(s, sep)[0] == s[..|Split(s, sep)[0]|]
  {
  }

  /** A character missing from a string is missing from each piece of its
      split. */
  lemma {:induction false} SplitPartsAvoid(s: string, sep: string, c: char)
    requires |sep| > 0 && c !in s
    ensures forall k :: 0 <= k < |Split(s, sep)| ==> c !in Split(s, sep)[k]
    decreases |s|
  {
    match Find(s, sep)
    case None =>
    case Some(i) =>
      var head, tail := s[..i], s[i + |sep|..];
      SplitAt(s, sep, i);
      assert c !in head && c !in tail by {
        assert s == head + s[i..i + |sep|] + tail;
      }
      SplitPartsAvoid(tail, sep, c);
      forall k | 0 <= k < |Split(s, sep)| ensures c !in Split(s, sep)[k] {
        if k > 0 { assert Split(s, sep)[k] == Split(tail, sep)[k - 1]; }
      }
  }

  /** A separator whose first character is missing from a string does not
      occur in it. */
  lemma {:induction false} FreeOfFirst(s: string, sep: string)
    requires |sep| > 0 && sep[0] !in s
    ensures Free(s, sep)
  {
  }

  /** JavaScript's `length`: the number of UTF-16 code units, two for a
      code point above U+FFFF. */
  function Utf16Length(s: string): (n: nat)
    ensures |s| <= n <= 2 * |s|
  {
    if s == [] then 0 else (if s[0] as int > 0xFFFF then 2 else 1) + Utf16Length(s[1..])
  }

  // ---------------------------------------------------------------------
  // trim

  /** ECMAScript's WhiteSpace and LineTerminator code points, which
      `String.prototype.trim` removes from both ends. */
  predicate IsWhitespace(c: char)
  {
    c in {'\t', '\n', '\U{000B}', '\U{000C}', '\r', ' ', '\U{00A0}', '\U{1680}',
          '\U{2000}', '\U{2001}', '\U{2002}', '\U{2003}', '\U{2004}', '\U{2005}',
          '\U{2006}', '\U{2007}', '\U{2008}', '\U{2009}', '\U{200A}', '\U{2028}',
          '\U{2029}', '\U{202F}', '\U{205F}', '\U{3000}', '\U{FEFF}'}
  }

  function TrimStart(s: string): (r: string)
    ensures |r| <= |s|
    ensures r == [] || !IsWhitespace(r[0])
    ensures forall i :: 0 <= i < |s| - |r| ==> IsWhitespace(s[i])
  {
    if s == [] || !IsWhitespace(s[0]) then s else TrimStart(s[1..])
  }

  function TrimEnd(s: string): (r: string)
    ensures |r| <= |s|
    ensures r == [] || !IsWhitespace(r[|r| - 1])
    ensures forall i :: |r| <= i < |s| ==> IsWhitespace(s[i])
  {
    if s == [] || !IsWhitespace(s[|s| - 1]) then s else TrimEnd(s[..|s| - 1])
  }

  /** `TrimStart` keeps a suffix of the text. */
  lemma {:induction false} TrimStartIsSuffix(s: string)
    ensures TrimStart(s) == s[|s| - |TrimStart(s)|..]
    decreases |s|
  {
    if s != [] && IsWhitespace(s[0]) {
      TrimStartIsSuffix(s[1..]);
      assert s[1..][|s| - 1 - |TrimStart(s[1..])|..] == s[|s| - |TrimStart(s)|..];
    }
  }

  /** `TrimEnd` keeps a prefix of the text. */
  lemma {:induction false} TrimEndIsPrefix(s: string)
    ensures TrimEnd(s) == s[..|TrimEnd(s)|]
    decreases |s|
  {
    if s != [] && IsWhitespace(s[|s| - 1]) {
      TrimEndIsPrefix(s[..|s| - 1]);
      assert s[..|s| - 1][..|TrimEnd(s)|] == s[..|TrimEnd(s)|];
    }
  }

  /** `s.trim()`: the longest middle part of `s` with no whitespace at
      either end. */
  function Trim(s: string): (r: string)
    ensures r == [] || (!IsWhitespace(r[0]) && !IsWhitespace(r[|r| - 1]))
    ensures |r| <= |s|
  {
    TrimEndIsPrefix(TrimStart(s));
    TrimEnd(TrimStart(s))
  }

  /** What `trim` cuts off is whitespace, and what it keeps is a contiguous
      part of the text. */
  lemma {:induction false} TrimCutsWhitespace(s: string)
    ensures var k := |s| - |TrimStart(s)|; var r := Trim(s);
      && k + |r| <= |s| && r == s[k..k + |r|]
      && (forall i :: 0 <= i < k ==> IsWhitespace(s[i]))
      && (forall i :: k + |r| <= i < |s| ==> IsWhitespace(s[i]))
  {
    var t := TrimStart(s);
    var r := TrimEnd(t);
    var k := |s| - |t|;
    TrimStartIsSuffix(s);
    TrimEndIsPrefix(t);
    SuffixPrefix(s, k, |r|);
    ShiftedWhitespace(s, t, k, |r|);
  }

  /** Whitespace at the end of a suffix is whitespace at the end of the text. */
  lemma {:induction false} ShiftedWhitespace(s: string, t: string, k: nat, n: nat)
    requires k <= |s| && t == s[k..]
    requires forall i :: n <= i < |t| ==> IsWhitespace(t[i])
    ensures forall i :: k + n <= i < |s| ==> IsWhitespace(s[i])
  {
    forall i | k + n <= i < |s| ensures IsWhitespace(s[i]) {
      assert s[i] == t[i - k];
    }
  }

  /** A prefix of a suffix is a slice. */
  lemma {:induction false} SuffixPrefix(s: string, k: nat, n: nat)
    requires k + n <= |s|
    ensures s[k..][..n] == s[k..k + n]
  {
  }

  /** Text that neither starts nor ends with whitespace is left alone. */
  lemma {:induction false} TrimKeeps(s: string)
    requires s == [] || (!IsWhitespace(s[0]) && !IsWhitespace(s[|s| - 1]))
    ensures Trim(s) == s
  {
  }

  // ---------------------------------------------------------------------
  // numbers as text

  function DigitChar(d: nat): char
    requires d < 10
  {
    "0123456789"[d]
  }

  /** The decimal text of a natural number, as template literals print it. */
  function NatToString(n: nat): (r: string)
    ensures |r| >= 1
    ensures forall i :: 0 <= i < |r| ==> '0' <= r[i] <= '9'
  {
    if n < 10 then [DigitChar(n)] else NatToString(n / 10) + [DigitChar(n % 10)]
  }

  // ---------------------------------------------------------------------
  // ordering of text

  /** Strict lexicographic order on code points. SQLite's default BINARY
      collation compares the UTF-8 bytes, which orders text the same way. */
  predicate StrLess(a: string, b: string)
    decreases |a|
  {
    if |a| == 0 then |b| > 0
    else if |b| == 0 then false
    else if a[0] != b[0] then a[0] < b[0]
    else StrLess(a[1..], b[1..])
  }

  lemma {:induction false} StrLessIrreflexive(a: string)
    ensures !StrLess(a, a)
    decreases |a|
  {
    if |a| > 0 { StrLessIrreflexive(a[1..]); }
  }

  lemma {:induction false} StrLessTransitive(a: string, b: string, c: string)
    requires StrLess(a, b) && StrLess(b, c)
    ensures StrLess(a, c)
    decreases |a|
  {
    if |a| > 0 && a[0] == b[0] && b[0] == c[0] {
      StrLessTransitive(a[1..], b[1..], c[1..]);
    }
  }

  lemma {:induction false} StrLessTotal(a: string, b: string)
    requires a != b
    ensures StrLess(a, b) || StrLess(b, a)
    decreases |a|
  {
    if |a| > 0 && |b| > 0 && a[0] == b[0] {
      assert a == [a[0]] + a[1..] && b == [b[0]] + b[1..];
      StrLessTotal(a[1..], b[1..]);
    }
  }

  lemma {:induction false} StrLessAsymmetric(a: string, b: string)
    requires StrLess(a, b)
    ensures !StrLess(b, a)
  {
    if StrLess(b, a) {
      StrLessTransitive(a, b, a);
      StrLessIrreflexive(a);
    }
  }
}
