/**
  Character-level text operations that the formatters, the header matcher and the
  dashboard rely on: the JavaScript `\D` class, `trim`, `toLowerCase`, `includes`,
  `join`, and the default `sort` comparator, stated over `seq<char>`.
 */
module Strings {

  // ---------------------------------------------------------------------------
  // Digits (`\d` is ASCII 0-9 in JavaScript regular expressions)
  // ---------------------------------------------------------------------------

  predicate IsDigit(c: char) { '0' <= c <= '9' }

  predicate AllDigits(s: string) { forall i :: 0 <= i < |s| ==> IsDigit(s[i]) }

  /** `s.replace(/\D/g, '')`: the digits of `s`, in order. */
  function Digits(s: string): (r: string)
    ensures |r| <= |s|
    ensures AllDigits(r)
  {
    if s == [] then []
    else (if IsDigit(s[0]) then [s[0]] else []) + Digits(s[1..])
  }

  lemma {:induction false} DigitsAppend(a: string, b: string)
    ensures Digits(a + b) == Digits(a) + Digits(b)
  {
    if a != [] {
      assert (a + b)[1..] == a[1..] + b;
      DigitsAppend(a[1..], b);
    } else {
      assert a + b == b;
    }
  }

  /** Stripping the non-digits of a digit string changes nothing. */
  lemma {:induction false} DigitsOfDigits(s: string)
    requires AllDigits(s)
    ensures Digits(s) == s
  {
    if s != [] {
      DigitsOfDigits(s[1..]);
    }
  }

  lemma DigitsIdempotent(s: string)
    ensures Digits(Digits(s)) == Digits(s)
  {
    DigitsOfDigits(Digits(s));
  }

  // ---------------------------------------------------------------------------
  // Whitespace and `String.prototype.trim`
  // ---------------------------------------------------------------------------

  /** ECMAScript WhiteSpace and LineTerminator code points: what `trim` removes. */
  predicate IsWhitespace(c: char)
  {
    c == '\t' || c == '\n' || c == '\U{000B}' || c == '\U{000C}' || c == '\r' || c == ' '
    || c == '\U{00A0}' || c == '\U{1680}' || ('\U{2000}' <= c <= '\U{200A}')
    || c == '\U{2028}' || c == '\U{2029}' || c == '\U{202F}' || c == '\U{205F}'
    || c == '\U{3000}' || c == '\U{FEFF}'
  }

  /** Number of whitespace characters at the start of `s`. */
  function LeadingSpace(s: string): (k: nat)
    ensures k <= |s|
    ensures forall i :: 0 <= i < k ==> IsWhitespace(s[i])
    ensures k < |s| ==> !IsWhitespace(s[k])
  {
    if s == [] || !IsWhitespace(s[0]) then 0 else 1 + LeadingSpace(s[1..])
  }

  /** Number of whitespace characters at the end of `s`. */
  function TrailingSpace(s: string): (k: nat)
    ensures k <= |s|
    ensures forall i :: |s| - k <= i < |s| ==> IsWhitespace(s[i])
    ensures k < |s| ==> !IsWhitespace(s[|s| - 1 - k])
  {
    if s == [] || !IsWhitespace(s[|s| - 1]) then 0 else 1 + TrailingSpace(s[..|s| - 1])
  }

  predicate AllWhitespace(s: string) { forall i :: 0 <= i < |s| ==> IsWhitespace(s[i]) }

  /** `s.trim()`: the part of `s` between its leading and trailing whitespace. */
  function Trim(s: string): (r: string)
    ensures r == [] || (!IsWhitespace(r[0]) && !IsWhitespace(r[|r| - 1]))
    ensures LeadingSpace(s) + |r| <= |s|
    ensures forall i :: 0 <= i < |r| ==> r[i] == s[LeadingSpace(s) + i]
    ensures r == [] <==> forall i :: 0 <= i < |s| ==> IsWhitespace(s[i])
  {
    var a := LeadingSpace(s);
    if a == |s| then []
    else s[a..|s| - TrailingSpace(s)]
  }

  /**
    `trim` removes whitespace and nothing else: the text is its leading whitespace,
    its trim and its trailing whitespace, in that order.
   */
  lemma TrimRemovesOnlyWhitespace(s: string)
    ensures var a, r := LeadingSpace(s), Trim(s);
      && a + |r| <= |s|
      && AllWhitespace(s[..a])
      && AllWhitespace(s[a + |r|..])
      && s == s[..a] + r + s[a + |r|..]
  {
    var a, r := LeadingSpace(s), Trim(s);
    LeadingWhitespace(s);
    if a < |s| {
      TrimSlice(s);
      TrailingWhitespace(s);
    }
    Split3(s, a, a + |r|);
  }

  lemma LeadingWhitespace(s: string)
    ensures AllWhitespace(s[..LeadingSpace(s)])
  {
    var k := LeadingSpace(s);
    forall i | 0 <= i < k ensures IsWhitespace(s[..k][i]) {
      assert s[..k][i] == s[i];
    }
  }

  lemma TrailingWhitespace(s: string)
    ensures AllWhitespace(s[|s| - TrailingSpace(s)..])
  {
    var k := |s| - TrailingSpace(s);
    forall i | 0 <= i < |s| - k ensures IsWhitespace(s[k..][i]) {
      assert s[k..][i] == s[k + i];
    }
  }

  lemma Split3(s: string, a: nat, b: nat)
    requires a <= b <= |s|
    ensures s == s[..a] + s[a..b] + s[b..]
  {
  }

  /** Text that neither begins nor ends with whitespace is its own trim. */
  lemma TrimOfTrimmed(s: string)
    requires s == [] || (!IsWhitespace(s[0]) && !IsWhitespace(s[|s| - 1]))
    ensures Trim(s) == s
  {
    if s != [] {
      assert LeadingSpace(s) == 0 && TrailingSpace(s) == 0;
    }
  }

  /** One space on each side of trimmed, non-empty text is removed by trimming. */
  lemma TrimPadded(s: string)
    requires s != [] && !IsWhitespace(s[0]) && !IsWhitespace(s[|s| - 1])
    ensures Trim([' '] + s + [' ']) == s
  {
    var t := [' '] + s + [' '];
    assert t[1..] == s + [' '];
    assert LeadingSpace(t[1..]) == 0;
    assert t[..|t| - 1] == [' '] + s;
    assert TrailingSpace(t[..|t| - 1]) == 0;
    assert t[1..|t| - 1] == s;
  }

  lemma TrimIdempotent(s: string)
    ensures Trim(Trim(s)) == Trim(s)
  {
    var t := Trim(s);
    if t != [] {
      assert LeadingSpace(t) == 0;
      assert TrailingSpace(t) == 0;
    }
  }

  // ---------------------------------------------------------------------------
  // `String.prototype.toLowerCase`, on ASCII and Latin-1
  // ---------------------------------------------------------------------------

  /** Upper-case letters of ASCII and of Latin-1 (U+00C0-U+00DE, except the sign U+00D7). */
  predicate IsUpper(c: char)
  {
    ('A' <= c <= 'Z') || ('\U{00C0}' <= c <= '\U{00DE}' && c != '\U{00D7}')
  }

  function LowerChar(c: char): (d: char)
    ensures !IsUpper(d)
    ensures !IsUpper(c) ==> d == c
  {
    if IsUpper(c) then (c as int + 32) as char else c
  }

  function Lower(s: string): (r: string)
    ensures |r| == |s|
    ensures forall i :: 0 <= i < |s| ==> r[i] == LowerChar(s[i])
  {
    seq(|s|, i requires 0 <= i < |s| => LowerChar(s[i]))
  }

  predicate NoUpper(s: string) { forall i :: 0 <= i < |s| ==> !IsUpper(s[i]) }

  /** Lower-casing leaves whitespace where it was, so it commutes with `trim`. */
  lemma {:induction false} TrimLowerCommute(s: string)
    ensures Trim(Lower(s)) == Lower(Trim(s))
  {
    if LeadingSpace(s) < |s| {
      TrimLowerSame(s);
    } else {
      LeadingSpaceLower(s);
      TrimAllWhitespace(s);
      TrimAllWhitespace(Lower(s));
    }
  }

  /** Both trims start at the same place and have the same length ... */
  lemma {:induction false} TrimLowerLength(s: string)
    requires LeadingSpace(s) < |s|
    ensures LeadingSpace(Lower(s)) == LeadingSpace(s)
    ensures |Trim(Lower(s))| == |Trim(s)|
  {
    LeadingSpaceLower(s);
    TrailingSpaceLower(s);
    TrimLength(s);
    TrimLength(Lower(s));
  }

  /** ... and agree character by character ... */
  lemma {:induction false} TrimLowerPointwise(s: string)
    requires LeadingSpace(s) < |s|
    ensures forall i :: 0 <= i < |Trim(Lower(s))| && i < |Trim(s)| ==> Trim(Lower(s))[i] == LowerChar(Trim(s)[i])
  {
    var a, l := LeadingSpace(s), Lower(s);
    LeadingSpaceLower(s);
    forall i | 0 <= i < |Trim(l)| && i < |Trim(s)| ensures Trim(l)[i] == LowerChar(Trim(s)[i]) {
      TrimAt(l, i);
      TrimAt(s, i);
    }
  }

  lemma {:induction false} TrimAt(s: string, i: nat)
    requires i < |Trim(s)|
    ensures LeadingSpace(s) + i < |s| && Trim(s)[i] == s[LeadingSpace(s) + i]
  {
  }

  /** ... so they are equal. */
  lemma {:induction false} TrimLowerSame(s: string)
    requires LeadingSpace(s) < |s|
    ensures Trim(Lower(s)) == Lower(Trim(s))
  {
    TrimLowerLength(s);
    TrimLowerPointwise(s);
  }




  /** Text with something besides whitespace trims to the slice between its whitespace runs. */
  lemma TrimSlice(s: string)
    requires LeadingSpace(s) < |s|
    ensures LeadingSpace(s) <= |s| - TrailingSpace(s)
    ensures Trim(s) == s[LeadingSpace(s)..|s| - TrailingSpace(s)]
  {
  }

  lemma TrimLength(s: string)
    requires LeadingSpace(s) < |s|
    ensures LeadingSpace(s) + |Trim(s)| == |s| - TrailingSpace(s)
  {
    TrimSlice(s);
  }

  /** A character that is not whitespace is never trimmed away. */
  lemma {:induction false} TrimKeeps(s: string, j: nat)
    requires j < |s| && !IsWhitespace(s[j])
    ensures s[j] in Trim(s)
  {
    var a := LeadingSpace(s);
    assert a <= j;
    assert j < |s| - TrailingSpace(s);
    TrimLength(s);
    TrimAt(s, j - a);
  }

  lemma TrimAllWhitespace(s: string)
    requires LeadingSpace(s) == |s|
    ensures Trim(s) == []
  {
  }

  lemma {:induction false} LeadingSpaceLower(s: string)
    ensures LeadingSpace(Lower(s)) == LeadingSpace(s)
  {
    if s != [] && IsWhitespace(s[0]) {
      assert Lower(s)[1..] == Lower(s[1..]);
      LeadingSpaceLower(s[1..]);
    }
  }

  lemma {:induction false} TrailingSpaceLower(s: string)
    ensures TrailingSpace(Lower(s)) == TrailingSpace(s)
  {
    if s != [] && IsWhitespace(s[|s| - 1]) {
      assert Lower(s)[..|s| - 1] == Lower(s[..|s| - 1]);
      TrailingSpaceLower(s[..|s| - 1]);
    }
  }

  /** Text without capitals is its own lower case. */
  lemma LowerOfNoUpper(s: string)
    requires NoUpper(s)
    ensures Lower(s) == s
  {
  }

  lemma LowerIdempotent(s: string)
    ensures Lower(Lower(s)) == Lower(s)
  {
  }

  // ---------------------------------------------------------------------------
  // `includes` and `join`
  // ---------------------------------------------------------------------------

  /** `haystack.includes(needle)`: `needle` occurs at some position of `haystack`. */
  function Contains(haystack: string, needle: string): (found: bool)
    ensures found <==> exists i :: 0 <= i <= |haystack| && needle <= haystack[i..]
  {
    if needle <= haystack then
      assert haystack[0..] == haystack;
      true
    else if haystack == [] then
      false
    else
      var rest := haystack[1..];
      assert forall i :: 1 <= i <= |haystack| ==> haystack[i..] == rest[i - 1..];
      Contains(rest, needle)
  }

  /** An occurrence in either half is an occurrence in the whole. */
  lemma ContainsAppend(a: string, b: string, needle: string)
    ensures Contains(a, needle) ==> Contains(a + b, needle)
    ensures Contains(b, needle) ==> Contains(a + b, needle)
  {
    if Contains(a, needle) {
      var i :| 0 <= i <= |a| && needle <= a[i..];
      assert needle <= (a + b)[i..] by {
        assert (a + b)[i..] == a[i..] + b;
      }
    }
    if Contains(b, needle) {
      var i :| 0 <= i <= |b| && needle <= b[i..];
      assert (a + b)[|a| + i..] == b[i..];
    }
  }

  /** `parts.join(sep)`: the parts in order with `sep` between neighbours. */
  function Join(parts: seq<string>, sep: string): (r: string)
    ensures parts == [] ==> r == ""
    ensures |parts| == 1 ==> r == parts[0]
    ensures parts != [] ==> parts[0] <= r
  {
    if parts == [] then ""
    else if |parts| == 1 then parts[0]
    else parts[0] + sep + Join(parts[1..], sep)
  }

  /** Every part occurs in the joined text. */
  lemma {:induction false} JoinContainsParts(parts: seq<string>, sep: string)
    ensures forall i :: 0 <= i < |parts| ==> Contains(Join(parts, sep), parts[i])
  {
    if |parts| > 1 {
      var tail := parts[1..];
      JoinContainsParts(tail, sep);
      forall i | 0 <= i < |parts| ensures Contains(Join(parts, sep), parts[i]) {
        if i == 0 {
          assert parts[0] <= Join(parts, sep)[0..];
        } else {
          assert parts[i] == tail[i - 1];
          ContainsAppend(parts[0] + sep, Join(tail, sep), parts[i]);
        }
      }
    } else if |parts| == 1 {
      assert parts[0] <= Join(parts, sep)[0..];
    }
  }

  // ---------------------------------------------------------------------------
  // Order-preserving selection
  // ---------------------------------------------------------------------------

  /** `xs` can be obtained from `ys` by deleting elements (order kept). */
  predicate IsSubsequence<T(==)>(xs: seq<T>, ys: seq<T>)
    decreases |ys|
  {
    if xs == [] then true
    else if ys == [] then false
    else if xs[|xs| - 1] == ys[|ys| - 1] then IsSubsequence(xs[..|xs| - 1], ys[..|ys| - 1])
    else IsSubsequence(xs, ys[..|ys| - 1])
  }

  lemma {:induction false} SubsequenceDropLast<T>(xs: seq<T>, ys: seq<T>)
    requires xs != [] && IsSubsequence(xs, ys)
    ensures IsSubsequence(xs[..|xs| - 1], ys)
    decreases |ys|, 0
  {
    var xs', ys' := xs[..|xs| - 1], ys[..|ys| - 1];
    if xs[|xs| - 1] == ys[|ys| - 1] {
      // IsSubsequence(xs', ys') holds; appending to ys keeps it.
      SubsequenceExtend(xs', ys', ys[|ys| - 1]);
      assert ys' + [ys[|ys| - 1]] == ys;
    } else {
      SubsequenceDropLast(xs, ys');
      SubsequenceExtend(xs', ys', ys[|ys| - 1]);
      assert ys' + [ys[|ys| - 1]] == ys;
    }
  }

  lemma {:induction false} SubsequenceExtend<T>(xs: seq<T>, ys: seq<T>, y: T)
    requires IsSubsequence(xs, ys)
    ensures IsSubsequence(xs, ys + [y])
    decreases |ys|, 1
  {
    var zs := ys + [y];
    assert zs[..|zs| - 1] == ys;
    if xs != [] && xs[|xs| - 1] == y {
      SubsequenceDropLast(xs, ys);
    }
  }

  // ---------------------------------------------------------------------------
  // The default `Array.prototype.sort` order on strings
  // ---------------------------------------------------------------------------

  /** Lexicographic order on code points: a proper prefix comes first. */
  function Less(a: string, b: string): (less: bool)
    ensures a < b ==> less
    ensures b <= a ==> !less
  {
    if b == [] then false
    else if a == [] then true
    else if a[0] != b[0] then a[0] < b[0]
    else Less(a[1..], b[1..])
  }

  lemma {:induction false} LessTransitive(a: string, b: string, c: string)
    requires Less(a, b) && Less(b, c)
    ensures Less(a, c)
  {
    if a != [] && a[0] == b[0] && b[0] == c[0] {
      LessTransitive(a[1..], b[1..], c[1..]);
    }
  }

  lemma {:induction false} LessTotal(a: string, b: string)
    requires a != b
    ensures Less(a, b) || Less(b, a)
  {
    if a != [] && b != [] && a[0] == b[0] {
      assert a == [a[0]] + a[1..] && b == [b[0]] + b[1..];
      LessTotal(a[1..], b[1..]);
    }
  }

  predicate StrictlySorted(s: seq<string>)
  {
    forall i, j :: 0 <= i < j < |s| ==> Less(s[i], s[j])
  }

  /** Insertion into a strictly sorted list, dropping a value already present. */
  function InsertSorted(s: seq<string>, x: string): (r: seq<string>)
    requires StrictlySorted(s)
    ensures StrictlySorted(r)
    ensures forall y :: y in r <==> y in s || y == x
  {
    if s == [] then [x]
    else if x == s[0] then s
    else if Less(x, s[0]) then
      assert forall j :: 0 < j < |s| ==> Less(x, s[j]) by {
        forall j | 0 < j < |s| ensures Less(x, s[j]) {
          LessTransitive(x, s[0], s[j]);
        }
      }
      [x] + s
    else
      LessTotal(x, s[0]);
      assert StrictlySorted(s[1..]) by {
        forall i, j | 0 <= i < j < |s| - 1 ensures Less(s[1..][i], s[1..][j]) {
          assert s[1..][i] == s[i + 1] && s[1..][j] == s[j + 1];
        }
      }
      var rest := InsertSorted(s[1..], x);
      assert forall y :: y in rest ==> Less(s[0], y) by {
        forall y | y in rest ensures Less(s[0], y) {
          if y != x {
            var j :| 1 <= j < |s| && s[j] == y;
          }
        }
      }
      [s[0]] + rest
  }

  /**
    `Array.from(new Set(xs)).sort()`: the distinct values of `xs`, ascending.
   */
  function SortedDistinct(xs: seq<string>): (r: seq<string>)
    ensures StrictlySorted(r)
    ensures forall y :: y in r <==> y in xs
  {
    if xs == [] then []
    else
      var r := InsertSorted(SortedDistinct(xs[..|xs| - 1]), xs[|xs| - 1]);
      assert forall y :: y in xs <==> y in xs[..|xs| - 1] || y == xs[|xs| - 1] by {
        assert xs == xs[..|xs| - 1] + [xs[|xs| - 1]];
      }
      r
  }

  /** A strictly sorted list has no duplicates. */
  lemma StrictlySortedDistinct(s: seq<string>)
    requires StrictlySorted(s)
    ensures forall i, j :: 0 <= i < j < |s| ==> s[i] != s[j]
  {
  }
}
