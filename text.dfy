/**
 * Strings as the specification service compares them: an ordinal
 * (code point by code point) lexicographic order, with `null` ordered
 * before every string as `Comparer<string>.Default` does, and the
 * ASCII lower-casing that HTTP verb matching relies on.
 */
module Text {
  import opened Wrappers

  /** `a` sorts no later than `b`. */
  predicate StrLe(a: string, b: string)
  {
    a == [] || (b != [] && (a[0] < b[0] || (a[0] == b[0] && StrLe(a[1..], b[1..]))))
  }

  lemma {:induction false} StrLeReflexive(a: string)
    ensures StrLe(a, a)
  {
    if a != [] {
      StrLeReflexive(a[1..]);
    }
  }

  lemma {:induction false} StrLeTotal(a: string, b: string)
    ensures StrLe(a, b) || StrLe(b, a)
  {
    if a != [] && b != [] && a[0] == b[0] {
      StrLeTotal(a[1..], b[1..]);
    }
  }

  lemma {:induction false} StrLeAntisymmetric(a: string, b: string)
    requires StrLe(a, b) && StrLe(b, a)
    ensures a == b
  {
    if a != [] && b != [] {
      StrLeAntisymmetric(a[1..], b[1..]);
      assert a == [a[0]] + a[1..] && b == [b[0]] + b[1..];
    }
  }

  lemma {:induction false} StrLeTransitive(a: string, b: string, c: string)
    requires StrLe(a, b) && StrLe(b, c)
    ensures StrLe(a, c)
  {
    if a != [] && b != [] && c != [] && a[0] == b[0] && b[0] == c[0] {
      StrLeTransitive(a[1..], b[1..], c[1..]);
    }
  }

  /** The ordinal order is a total order on strings. */
  lemma StrLeTotalOrder()
    ensures forall a: string :: StrLe(a, a)
    ensures forall a: string, b: string :: StrLe(a, b) || StrLe(b, a)
    ensures forall a: string, b: string :: StrLe(a, b) && StrLe(b, a) ==> a == b
    ensures forall a: string, b: string, c: string :: StrLe(a, b) && StrLe(b, c) ==> StrLe(a, c)
  {
    forall a: string { StrLeReflexive(a); }
    forall a: string, b: string { StrLeTotal(a, b); }
    forall a: string, b: string | StrLe(a, b) && StrLe(b, a) { StrLeAntisymmetric(a, b); }
    forall a: string, b: string, c: string | StrLe(a, b) && StrLe(b, c) { StrLeTransitive(a, b, c); }
  }

  /** Order on nullable strings: `null` first, then the ordinal order. */
  predicate NStrLe(a: Option<string>, b: Option<string>)
  {
    a.None? || (b.Some? && StrLe(a.value, b.value))
  }

  lemma NStrLeTotalOrder()
    ensures forall a: Option<string> :: NStrLe(a, a)
    ensures forall a: Option<string>, b: Option<string> :: NStrLe(a, b) || NStrLe(b, a)
    ensures forall a: Option<string>, b: Option<string> :: NStrLe(a, b) && NStrLe(b, a) ==> a == b
    ensures forall a: Option<string>, b: Option<string>, c: Option<string> ::
      NStrLe(a, b) && NStrLe(b, c) ==> NStrLe(a, c)
  {
    StrLeTotalOrder();
  }

  /** ASCII lower-casing of one character. */
  function LowerChar(c: char): (r: char)
    ensures 'A' <= c <= 'Z' ==> r as int == c as int + 32
    ensures !('A' <= c <= 'Z') ==> r == c
  {
    if 'A' <= c <= 'Z' then (c as int + 32) as char else c
  }

  /** ASCII upper-casing of one character. */
  function UpperChar(c: char): (r: char)
    ensures 'a' <= c <= 'z' ==> r as int == c as int - 32
    ensures !('a' <= c <= 'z') ==> r == c
  {
    if 'a' <= c <= 'z' then (c as int - 32) as char else c
  }

  /** `s.ToLower()` restricted to ASCII letters. */
  function ToLower(s: string): (r: string)
    ensures |r| == |s|
    ensures forall i :: 0 <= i < |s| ==> r[i] == LowerChar(s[i])
  {
    if s == [] then [] else [LowerChar(s[0])] + ToLower(s[1..])
  }

  /** `s.ToUpper()` restricted to ASCII letters. */
  function ToUpper(s: string): (r: string)
    ensures |r| == |s|
    ensures forall i :: 0 <= i < |s| ==> r[i] == UpperChar(s[i])
  {
    if s == [] then [] else [UpperChar(s[0])] + ToUpper(s[1..])
  }

  /** Lower-casing forgets every difference of case. */
  lemma LowerIgnoresCase(s: string)
    ensures ToLower(ToLower(s)) == ToLower(s)
    ensures ToLower(ToUpper(s)) == ToLower(s)
  {
  }

  /** The first position of `c` in `s`, or `|s|` when it does not occur. */
  function IndexOf(s: string, c: char): (r: nat)
    ensures r <= |s|
    ensures c !in s[..r]
    ensures r < |s| ==> s[r] == c
  {
    if s == [] then 0 else if s[0] == c then 0 else 1 + IndexOf(s[1..], c)
  }

  /** `s.Split(c).First()`: the part of `s` before the first `c`. */
  function Before(s: string, c: char): (r: string)
    ensures c !in r
    ensures r <= s
    ensures |r| < |s| ==> s[|r|] == c
  {
    s[..IndexOf(s, c)]
  }

  /** The part before `c` of a string that starts with a `c`-free prefix. */
  lemma {:induction false} BeforeSkipsFreePrefix(p: string, q: string, c: char)
    requires c !in p
    requires q == [] || q[0] == c
    ensures Before(p + q, c) == p
  {
    if p != [] {
      BeforeSkipsFreePrefix(p[1..], q, c);
      assert (p + q)[1..] == p[1..] + q;
    } else {
      assert p + q == q;
    }
  }

  /** `s.EnusureStartsWith(prefix)` for a one-character prefix. */
  function EnsureStartsWith(s: string, c: char): (r: string)
    ensures |r| > 0 && r[0] == c
    ensures r == s || r == [c] + s
    ensures s != [] && s[0] == c ==> r == s
  {
    if s != [] && s[0] == c then s else [c] + s
  }

  /** Elements joined with a separator, as `string.Join` does. */
  function JoinWith(parts: seq<string>, sep: string): (r: string)
    ensures parts == [] ==> r == []
    ensures |parts| == 1 ==> r == parts[0]
  {
    if parts == [] then []
    else if |parts| == 1 then parts[0]
    else parts[0] + sep + JoinWith(parts[1..], sep)
  }
}
