/** The few JavaScript string operations the application relies on, on `seq<char>`:
    `trim`, `toLowerCase` (ASCII letters only), `includes` and the relational `<`
    that both `Array.prototype.sort`'s default comparator and explicit comparators use. */
module JsString {

  /** The WhiteSpace and LineTerminator code points of ECMA-262 (sections 12.2 and 12.3),
      which `String.prototype.trim` removes from both ends. */
  predicate IsWhiteSpace(c: char) {
    || c == '\t' || c == '\U{000B}' || c == '\U{000C}' || c == ' ' || c == '\U{00A0}'
    || c == '\U{FEFF}' || c == '\U{1680}' || ('\U{2000}' <= c <= '\U{200A}')
    || c == '\U{202F}' || c == '\U{205F}' || c == '\U{3000}'
    || c == '\n' || c == '\r' || c == '\U{2028}' || c == '\U{2029}'
  }

  /** A string that `trim` turns into the empty string, i.e. one that is falsy after trimming. */
  predicate IsBlank(s: string) {
    forall i :: 0 <= i < |s| ==> IsWhiteSpace(s[i])
  }

  function TrimStart(s: string): string
    decreases |s|
  {
    if s != [] && IsWhiteSpace(s[0]) then TrimStart(s[1..]) else s
  }

  function TrimEnd(s: string): string
    decreases |s|
  {
    if s != [] && IsWhiteSpace(s[|s| - 1]) then TrimEnd(s[..|s| - 1]) else s
  }

  /** `s.trim()`. */
  function Trim(s: string): string {
    TrimEnd(TrimStart(s))
  }

  lemma {:induction false} TrimEndEmpty(s: string)
    ensures TrimEnd(s) == [] <==> IsBlank(s)
    decreases |s|
  {
    if s != [] && IsWhiteSpace(s[|s| - 1]) {
      var init := s[..|s| - 1];
      TrimEndEmpty(init);
      assert IsBlank(init) ==> IsBlank(s) by {
        if IsBlank(init) {
          forall i | 0 <= i < |s| ensures IsWhiteSpace(s[i]) {
            if i < |s| - 1 { assert s[i] == init[i]; }
          }
        }
      }
    }
  }

  lemma {:induction false} TrimStartIsSuffix(s: string)
    ensures |TrimStart(s)| <= |s| && TrimStart(s) == s[|s| - |TrimStart(s)|..]
    decreases |s|
  {
    if s != [] && IsWhiteSpace(s[0]) {
      TrimStartIsSuffix(s[1..]);
    }
  }

  /** The string `trim` produces is empty exactly when every character is white space,
      so `if (s.trim())` tests `!IsBlank(s)`. */
  lemma TrimEmptyIffBlank(s: string)
    ensures Trim(s) == [] <==> IsBlank(s)
  {
    var t := TrimStart(s);
    TrimEndEmpty(t);
    TrimStartStops(s);
    TrimStartIsSuffix(s);
    if IsBlank(t) {
      assert t == [];
      forall i | 0 <= i < |s| ensures IsWhiteSpace(s[i]) {
        TrimStartDropsBlanks(s, i);
      }
    }
  }

  lemma {:induction false} TrimStartStops(s: string)
    ensures TrimStart(s) == [] || !IsWhiteSpace(TrimStart(s)[0])
    decreases |s|
  {
    if s != [] && IsWhiteSpace(s[0]) {
      TrimStartStops(s[1..]);
    }
  }

  /** Every character `TrimStart` drops is white space. */
  lemma {:induction false} TrimStartDropsBlanks(s: string, i: int)
    requires 0 <= i < |s| - |TrimStart(s)|
    ensures IsWhiteSpace(s[i])
    decreases |s|
  {
    if s != [] && IsWhiteSpace(s[0]) {
      if i > 0 {
        TrimStartDropsBlanks(s[1..], i - 1);
      }
    }
  }

  /** `c.toLowerCase()` on the ASCII letters; other characters are left as they are. */
  function ToLowerChar(c: char): char {
    if 'A' <= c <= 'Z' then (c as int + 32) as char else c
  }

  /** `s.toLowerCase()`, one character at a time. */
  function ToLower(s: string): string {
    seq(|s|, i requires 0 <= i < |s| => ToLowerChar(s[i]))
  }

  /** Lowercasing keeps the length, changes no character outside A-Z, and lowercasing
      again changes nothing. */
  lemma ToLowerFacts(s: string)
    ensures |ToLower(s)| == |s|
    ensures forall i :: 0 <= i < |s| && !('A' <= s[i] <= 'Z') ==> ToLower(s)[i] == s[i]
    ensures forall i :: 0 <= i < |s| ==> !('A' <= ToLower(s)[i] <= 'Z')
    ensures ToLower(ToLower(s)) == ToLower(s)
  {
  }

  /** `s.includes(q)`: `q` occurs in `s` at some offset (the empty string occurs everywhere). */
  predicate Includes(s: string, q: string) {
    exists i | 0 <= i <= |s| - |q| :: OccursAt(s, q, i)
  }

  predicate OccursAt(s: string, q: string, i: int) {
    0 <= i <= |s| - |q| && s[i..i + |q|] == q
  }

  /** JavaScript's `a < b` on strings: lexicographic on character codes, a proper prefix
      being smaller. */
  predicate Less(a: string, b: string)
    decreases |a|
  {
    if a == [] then b != []
    else b != [] && (a[0] < b[0] || (a[0] == b[0] && Less(a[1..], b[1..])))
  }

  lemma {:induction false} LessIrreflexive(a: string)
    ensures !Less(a, a)
    decreases |a|
  {
    if a != [] {
      LessIrreflexive(a[1..]);
    }
  }

  lemma {:induction false} LessTransitive(a: string, b: string, c: string)
    requires Less(a, b) && Less(b, c)
    ensures Less(a, c)
    decreases |a|
  {
    if a != [] && a[0] == b[0] && b[0] == c[0] {
      LessTransitive(a[1..], b[1..], c[1..]);
    }
  }

  lemma {:induction false} LessTotal(a: string, b: string)
    ensures a == b || Less(a, b) || Less(b, a)
    decreases |a|
  {
    if a != [] && b != [] && a[0] == b[0] {
      LessTotal(a[1..], b[1..]);
      if a[1..] == b[1..] {
        assert a == [a[0]] + a[1..] && b == [b[0]] + b[1..];
      }
    }
  }

  lemma LessAsymmetric(a: string, b: string)
    requires Less(a, b)
    ensures !Less(b, a) && a != b
  {
    LessIrreflexive(a);
    if Less(b, a) {
      LessTransitive(a, b, a);
    }
  }
}
