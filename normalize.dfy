/**
  The text formatters of `src/utils/normalize.ts`: Brazilian phone layout, the
  "active" status test, accent- and case-insensitive normalisation for search, and
  the CPF/CNPJ document layout. All four are total functions of one string.
 */
module Normalize {
  import opened Strings

  // ---------------------------------------------------------------------------
  // normalizePhone
  // ---------------------------------------------------------------------------

  /** `(DD) D..D-DDDD`: area code, then the subscriber number split before its last four digits. */
  function PhoneLayout(d: string): (r: string)
    requires |d| == 10 || |d| == 11
  {
    var k := |d| - 4;
    "(" + d[..2] + ") " + d[2..k] + "-" + d[k..]
  }

  /**
    `normalizePhone`: the digits of `phone`, laid out as `(DD) DDDDD-DDDD` when there
    are eleven, as `(DD) DDDD-DDDD` when there are ten, and bare otherwise.
   */
  function NormalizePhone(phone: string): (r: string)
    ensures phone == "" ==> r == ""
    ensures var n := |Digits(phone)|; phone != "" && (n == 10 || n == 11) ==> |r| == n + 4
    ensures var n := |Digits(phone)|; n != 10 && n != 11 ==> r == Digits(phone)
  {
    if phone == "" then ""
    else
      var cleaned := Digits(phone);
      if |cleaned| == 11 || |cleaned| == 10 then PhoneLayout(cleaned)
      else cleaned
  }

  /** Appending a separator without digits adds no digit. */
  lemma DigitsAppendSeparator(x: string, sep: string)
    requires forall i :: 0 <= i < |sep| ==> !IsDigit(sep[i])
    ensures Digits(x + sep) == Digits(x)
  {
    DigitsAppend(x, sep);
    NoDigits(sep);
  }

  lemma {:induction false} NoDigits(sep: string)
    requires forall i :: 0 <= i < |sep| ==> !IsDigit(sep[i])
    ensures Digits(sep) == []
  {
    if sep != [] {
      NoDigits(sep[1..]);
    }
  }

  /** Appending a digit string adds exactly those digits. */
  lemma DigitsAppendDigits(x: string, d: string)
    requires AllDigits(d)
    ensures Digits(x + d) == Digits(x) + d
  {
    DigitsAppend(x, d);
    DigitsOfDigits(d);
  }

  lemma PhoneLayoutDigits(d: string)
    requires |d| == 10 || |d| == 11
    requires AllDigits(d)
    ensures Digits(PhoneLayout(d)) == d
  {
    var k := |d| - 4;
    var p1 := "(" + d[..2];
    var p2 := p1 + ") ";
    var p3 := p2 + d[2..k];
    var p4 := p3 + "-";
    assert Digits("(") == [];
    DigitsAppendDigits("(", d[..2]);
    DigitsAppendSeparator(p1, ") ");
    DigitsAppendDigits(p2, d[2..k]);
    DigitsAppendSeparator(p3, "-");
    DigitsAppendDigits(p4, d[k..]);
    assert PhoneLayout(d) == p4 + d[k..];
    assert d[..2] + d[2..k] + d[k..] == d;
  }

  /** Every digit of the input appears in the output, in order, and no other digit does. */
  lemma NormalizePhoneKeepsDigits(phone: string)
    ensures Digits(NormalizePhone(phone)) == Digits(phone)
  {
    var d := Digits(phone);
    if phone == "" {
    } else if |d| == 10 || |d| == 11 {
      PhoneLayoutDigits(d);
    } else {
      DigitsOfDigits(d);
    }
  }

  /** The layout position by position: separators at fixed places, the digits in order elsewhere. */
  lemma PhoneLayoutShape(d: string)
    requires |d| == 10 || |d| == 11
    ensures var r, k := PhoneLayout(d), |d| - 4;
      && |r| == |d| + 4
      && r[0] == '(' && r[1..3] == d[..2] && r[3] == ')' && r[4] == ' '
      && r[5..k + 3] == d[2..k] && r[k + 3] == '-' && r[k + 4..] == d[k..]
  {
    var k := |d| - 4;
    var p4 := "(" + d[..2] + ") " + d[2..k] + "-";
    assert |p4| == k + 4;
    assert p4[0] == '(' && p4[1..3] == d[..2] && p4[3] == ')' && p4[4] == ' ';
    assert p4[5..k + 3] == d[2..k] && p4[k + 3] == '-';
    var r := p4 + d[k..];
    assert r[..k + 4] == p4;
  }

  /** The eleven- and ten-digit cases of `normalizePhone`, stated on the digits of the input. */
  lemma NormalizePhoneLayout(phone: string)
    requires phone != ""
    ensures var d, r := Digits(phone), NormalizePhone(phone);
      && (|d| == 11 ==>
            r[0] == '(' && r[1..3] == d[..2] && r[3..5] == ") " && r[5..10] == d[2..7]
            && r[10] == '-' && r[11..] == d[7..])
      && (|d| == 10 ==>
            r[0] == '(' && r[1..3] == d[..2] && r[3..5] == ") " && r[5..9] == d[2..6]
            && r[9] == '-' && r[10..] == d[6..])
  {
    var d := Digits(phone);
    if |d| == 10 || |d| == 11 {
      PhoneLayoutShape(d);
      var r := NormalizePhone(phone);
      assert r[3..5] == [r[3], r[4]];
    }
  }

  /** Formatting a formatted phone number changes nothing. */
  lemma NormalizePhoneIdempotent(phone: string)
    ensures NormalizePhone(NormalizePhone(phone)) == NormalizePhone(phone)
  {
    NormalizePhoneKeepsDigits(phone);
    DigitsIdempotent(phone);
  }

  // ---------------------------------------------------------------------------
  // isActiveStatus
  // ---------------------------------------------------------------------------

  /** The spellings of "active" accepted in the status column. */
  const ActiveValues: seq<string> := ["ativo", "ativa", "active", "1", "sim", "yes", "true"]

  /**
    `isActiveStatus`: the trimmed, lower-cased status is one of `ActiveValues`. The
    empty-input guard agrees with that rule, so the test is exactly membership.
   */
  function IsActiveStatus(status: string): (active: bool)
    ensures active <==> Lower(Trim(status)) in ActiveValues
  {
    if status == "" then
      assert Lower(Trim(status)) == "";
      false
    else Lower(Trim(status)) in ActiveValues
  }

  /** Case does not matter ... */
  lemma IsActiveStatusIgnoresCase(status: string)
    ensures IsActiveStatus(Lower(status)) == IsActiveStatus(status)
  {
    TrimLowerCommute(status);
    LowerIdempotent(Trim(status));
  }

  /** ... and neither does surrounding whitespace. */
  lemma IsActiveStatusIgnoresPadding(status: string)
    ensures IsActiveStatus(Trim(status)) == IsActiveStatus(status)
  {
    TrimIdempotent(status);
  }

  /** A status padded with one space on each side is tested on its core. */
  lemma IsActiveStatusOfPadded(status: string, core: string)
    requires status == [' '] + core + [' ']
    requires core != [] && !IsWhitespace(core[0]) && !IsWhitespace(core[|core| - 1])
    ensures IsActiveStatus(status) <==> Lower(core) in ActiveValues
  {
    TrimPadded(core);
  }

  lemma LowerAtiva()
    ensures Lower("ATIVA") == ActiveValues[1]
  {
    var l := Lower("ATIVA");
    assert l[0] == 'a' && l[1] == 't' && l[2] == 'i' && l[3] == 'v' && l[4] == 'a';
  }

  lemma IsActiveStatusAcceptsPaddedUpperCase()
    ensures IsActiveStatus(" ATIVA ")
  {
    LowerAtiva();
    IsActiveStatusOfPadded(" ATIVA ", "ATIVA");
  }

  lemma IsActiveStatusRejectsInactive()
    ensures !IsActiveStatus("Inativo") && !IsActiveStatus("0")
  {
    IsActiveStatusOfTrimmed("Inativo");
    assert |Lower("Inativo")| == 7;
    IsActiveStatusOfTrimmed("0");
    assert Lower("0") == "0";
  }

  /** Text without surrounding whitespace is active iff its lower case is an accepted value. */
  lemma IsActiveStatusOfTrimmed(status: string)
    requires status != "" && !IsWhitespace(status[0]) && !IsWhitespace(status[|status| - 1])
    ensures IsActiveStatus(status) <==> Lower(status) in ActiveValues
  {
    TrimOfTrimmed(status);
  }

  // ---------------------------------------------------------------------------
  // normalizeString
  // ---------------------------------------------------------------------------

  /** Unicode combining diacritical marks, U+0300-U+036F: what the search ignores. */
  predicate IsCombiningMark(c: char) { '\U{0300}' <= c <= '\U{036F}' }

  /**
    Canonical decomposition of the Latin-1 letters that carry a diacritic, by their
    offset within a 32-letter half (U+00C0-U+00DF upper, U+00E0-U+00FF lower):
    the base letter (upper case) and the combining mark. Offsets 6, 16, 23, 24, 30
    (Æ, Ð, ×, Ø, Þ) have no decomposition; offset 31 is ß upper and ÿ lower.
   */
  function Latin1Decomposition(offset: int, lower: bool): (d: string)
    requires 0 <= offset < 32
    ensures d == [] || (|d| == 2 && 'A' <= d[0] <= 'Z' && IsCombiningMark(d[1]))
  {
    match offset
    case 0 => "A\U{0300}"  case 1 => "A\U{0301}"  case 2 => "A\U{0302}"  case 3 => "A\U{0303}"
    case 4 => "A\U{0308}"  case 5 => "A\U{030A}"  case 7 => "C\U{0327}"
    case 8 => "E\U{0300}"  case 9 => "E\U{0301}"  case 10 => "E\U{0302}" case 11 => "E\U{0308}"
    case 12 => "I\U{0300}" case 13 => "I\U{0301}" case 14 => "I\U{0302}" case 15 => "I\U{0308}"
    case 17 => "N\U{0303}"
    case 18 => "O\U{0300}" case 19 => "O\U{0301}" case 20 => "O\U{0302}" case 21 => "O\U{0303}"
    case 22 => "O\U{0308}"
    case 25 => "U\U{0300}" case 26 => "U\U{0301}" case 27 => "U\U{0302}" case 28 => "U\U{0308}"
    case 29 => "Y\U{0301}"
    case 31 => if lower then "Y\U{0308}" else ""
    case _ => ""
  }

  /**
    The Latin-1 letters with a decomposition: U+00C0-U+00FF except Æ, Ð, ×, Ø, Þ, ß
    and their lower-case places æ, ð, ÷, ø, þ.
   */
  predicate IsDecomposable(c: char)
  {
    '\U{00C0}' <= c <= '\U{00FF}'
    && c != '\U{00C6}' && c != '\U{00D0}' && c != '\U{00D7}' && c != '\U{00D8}' && c != '\U{00DE}' && c != '\U{00DF}'
    && c != '\U{00E6}' && c != '\U{00F0}' && c != '\U{00F7}' && c != '\U{00F8}' && c != '\U{00FE}'
  }

  /** The table has an entry exactly for the decomposable letters. */
  lemma Latin1DecompositionDefined(c: char)
    requires '\U{00C0}' <= c <= '\U{00FF}'
    ensures Latin1Decomposition((c as int - 0xC0) % 32, c as int >= 0xE0) != [] <==> IsDecomposable(c)
  {
  }

  /** `normalize('NFD')` on one character. */
  function Decompose(c: char): (d: string)
    ensures IsDecomposable(c) ==> |d| == 2 && !IsDecomposable(d[0]) && !IsCombiningMark(d[0]) && IsCombiningMark(d[1])
    ensures !IsDecomposable(c) ==> d == [c]
  {
    if IsDecomposable(c) then
      Latin1DecompositionDefined(c);
      var d := Latin1Decomposition((c as int - 0xC0) % 32, c as int >= 0xE0);
      if c as int >= 0xE0 then [(d[0] as int + 32) as char, d[1]] else d
    else [c]
  }

  /** `normalize('NFD')`, restricted to the Latin-1 letters. */
  function Nfd(s: string): (r: string)
    ensures forall i :: 0 <= i < |r| ==> !IsDecomposable(r[i])
  {
    if s == [] then [] else Decompose(s[0]) + Nfd(s[1..])
  }

  /** `replace(/[\u0300-\u036f]/g, '')`. */
  function StripMarks(s: string): (r: string)
    ensures forall i :: 0 <= i < |r| ==> !IsCombiningMark(r[i])
    ensures forall c :: c in r ==> c in s
  {
    if s == [] then []
    else (if IsCombiningMark(s[0]) then [] else [s[0]]) + StripMarks(s[1..])
  }

  /** Every character of the text that is not a mark survives. */
  lemma {:induction false} StripMarksKeeps(s: string)
    ensures forall c :: c in s && !IsCombiningMark(c) ==> c in StripMarks(s)
  {
    if s != [] {
      StripMarksKeeps(s[1..]);
      assert forall c :: c in s ==> c == s[0] || c in s[1..];
    }
  }

  /** The characters a normalised string is made of. */
  predicate Plain(c: char)
  {
    !IsUpper(c) && !IsCombiningMark(c) && !IsDecomposable(c)
  }

  /** Lower-casing keeps a character undecomposable and unmarked. */
  lemma LowerCharPlain(c: char)
    requires !IsDecomposable(c) && !IsCombiningMark(c)
    ensures Plain(LowerChar(c))
  {
  }

  /**
    `normalizeString`: accents removed, lower case, surrounding whitespace trimmed.
   */
  function NormalizeString(str: string): (r: string)
    ensures forall i :: 0 <= i < |r| ==> Plain(r[i])
    ensures r == [] || (!IsWhitespace(r[0]) && !IsWhitespace(r[|r| - 1]))
  {
    if str == "" then ""
    else
      var stripped := StripMarks(Nfd(str));
      var lowered := Lower(stripped);
      assert forall i :: 0 <= i < |lowered| ==> Plain(lowered[i]) by {
        forall i | 0 <= i < |lowered| ensures Plain(lowered[i]) {
          assert stripped[i] in Nfd(str);
          LowerCharPlain(stripped[i]);
        }
      }
      Trim(lowered)
  }

  lemma {:induction false} NfdOfPlain(s: string)
    requires forall i :: 0 <= i < |s| ==> !IsDecomposable(s[i])
    ensures Nfd(s) == s
  {
    if s != [] {
      NfdOfPlain(s[1..]);
    }
  }

  lemma {:induction false} StripMarksOfPlain(s: string)
    requires forall i :: 0 <= i < |s| ==> !IsCombiningMark(s[i])
    ensures StripMarks(s) == s
  {
    if s != [] {
      StripMarksOfPlain(s[1..]);
    }
  }

  /** Decomposition works character by character. */
  lemma {:induction false} NfdAppend(a: string, b: string)
    ensures Nfd(a + b) == Nfd(a) + Nfd(b)
  {
    if a != [] {
      assert (a + b)[1..] == a[1..] + b;
      NfdAppend(a[1..], b);
    } else {
      assert a + b == b;
    }
  }

  /** A character that decomposes to itself survives decomposition of the text around it. */
  lemma NfdKeeps(s: string, i: nat)
    requires i < |s| && !IsDecomposable(s[i])
    ensures s[i] in Nfd(s)
  {
    var c := s[i];
    assert s == s[..i] + ([c] + s[i + 1..]);
    NfdAppend(s[..i], [c] + s[i + 1..]);
    NfdAppend([c], s[i + 1..]);
    assert Nfd([c]) == [c] by {
      assert [c][1..] == [];
    }
  }

  /** Marks are removed character by character. */
  lemma {:induction false} StripMarksAppend(a: string, b: string)
    ensures StripMarks(a + b) == StripMarks(a) + StripMarks(b)
  {
    if a != [] {
      assert (a + b)[1..] == a[1..] + b;
      StripMarksAppend(a[1..], b);
    } else {
      assert a + b == b;
    }
  }

  /**
    Text already in normal form (plain characters, no surrounding whitespace)
    is left as it is.
   */
  lemma NormalizeStringOfNormal(s: string)
    requires forall i :: 0 <= i < |s| ==> Plain(s[i])
    requires s == [] || (!IsWhitespace(s[0]) && !IsWhitespace(s[|s| - 1]))
    ensures NormalizeString(s) == s
  {
    if s != "" {
      NfdOfPlain(s);
      StripMarksOfPlain(s);
      LowerOfNoUpper(s);
      NormalizeStringOfStripped(s, s, s);
    }
  }

  /**
    Every plain, non-whitespace character of the input is in its normal form: only
    case, accents and surrounding whitespace are dropped.
   */
  lemma PlainSurvives(s: string, c: char)
    requires c in s && Plain(c) && !IsWhitespace(c)
    ensures c in NormalizeString(s)
  {
    var i :| 0 <= i < |s| && s[i] == c;
    NfdKeeps(s, i);
    var stripped := StripMarks(Nfd(s));
    StripMarksKeeps(Nfd(s));
    var j :| 0 <= j < |stripped| && stripped[j] == c;
    var lowered := Lower(stripped);
    assert lowered[j] == c;
    TrimKeeps(lowered, j);
  }

  /** Normalising a normalised string changes nothing. */
  lemma NormalizeStringIdempotent(str: string)
    ensures NormalizeString(NormalizeString(str)) == NormalizeString(str)
  {
    NormalizeStringOfNormal(NormalizeString(str));
  }

  /** An upper-case Latin-1 letter decomposes like its lower-case partner, offset 31 aside. */
  lemma Latin1DecompositionIgnoresCase(offset: int)
    requires 0 <= offset < 31
    ensures Latin1Decomposition(offset, true) == Latin1Decomposition(offset, false)
  {
  }

  /** Lower-casing commutes with concatenation. */
  lemma LowerAppend(a: string, b: string)
    ensures Lower(a + b) == Lower(a) + Lower(b)
  {
  }

  /** What a two-character decomposition keeps once its mark is removed. */
  lemma StripMarksOfPair(d: string)
    requires |d| == 2 && !IsCombiningMark(d[0]) && IsCombiningMark(d[1])
    ensures StripMarks(d) == [d[0]]
  {
    assert d[1..][1..] == [];
    assert StripMarks(d[1..]) == [];
  }

  lemma StripMarksOfSingle(x: char)
    requires !IsCombiningMark(x)
    ensures StripMarks([x]) == [x]
  {
    assert [x][1..] == [];
  }

  /** One character lower-cased before decomposition ends up as it would after. */
  lemma FoldLowerChar(c: char)
    ensures Lower(StripMarks(Decompose(LowerChar(c)))) == Lower(StripMarks(Decompose(c)))
  {
    if IsUpper(c) && c as int >= 0xC0 {
      if IsDecomposable(c) {
        FoldLowerAccented(c);
      } else {
        FoldLowerUnaccented(c);
      }
    } else if IsUpper(c) {
      StripMarksOfSingle(c);
      StripMarksOfSingle(LowerChar(c));
    }
  }

  /** An upper-case Latin-1 letter's lower-case partner sits 32 places on, at the same table offset. */
  lemma Latin1Partner(c: char)
    requires IsUpper(c) && c as int >= 0xC0
    ensures var d := LowerChar(c);
      && d as int == c as int + 32 && 0xE0 <= d as int <= 0xFE
      && (d as int - 0xC0) % 32 == (c as int - 0xC0) % 32 < 31
      && (IsDecomposable(d) <==> IsDecomposable(c))
  {
  }

  lemma FoldLowerAccented(c: char)
    requires IsUpper(c) && c as int >= 0xC0 && IsDecomposable(c)
    ensures Lower(StripMarks(Decompose(LowerChar(c)))) == Lower(StripMarks(Decompose(c)))
  {
    var d := LowerChar(c);
    var o := (c as int - 0xC0) % 32;
    Latin1Partner(c);
    Latin1DecompositionIgnoresCase(o);
    var base := Latin1Decomposition(o, false);
    assert Decompose(c) == base;
    assert Decompose(d) == [(base[0] as int + 32) as char, base[1]];
    StripMarksOfPair(Decompose(c));
    StripMarksOfPair(Decompose(d));
  }

  lemma FoldLowerUnaccented(c: char)
    requires IsUpper(c) && c as int >= 0xC0 && !IsDecomposable(c)
    ensures Lower(StripMarks(Decompose(LowerChar(c)))) == Lower(StripMarks(Decompose(c)))
  {
    Latin1Partner(c);
    StripMarksOfSingle(c);
    StripMarksOfSingle(LowerChar(c));
  }

  /** Decomposing, stripping and lower-casing gives the same text whatever the input's case. */
  lemma {:induction false} FoldIgnoresCase(s: string)
    ensures Lower(StripMarks(Nfd(Lower(s)))) == Lower(StripMarks(Nfd(s)))
  {
    if s != [] {
      var c, rest := s[0], s[1..];
      assert Lower(s)[1..] == Lower(rest);
      FoldIgnoresCase(rest);
      FoldLowerChar(c);
      calc {
        Lower(StripMarks(Nfd(Lower(s))));
        { StripMarksAppend(Decompose(LowerChar(c)), Nfd(Lower(rest))); }
        Lower(StripMarks(Decompose(LowerChar(c))) + StripMarks(Nfd(Lower(rest))));
        { LowerAppend(StripMarks(Decompose(LowerChar(c))), StripMarks(Nfd(Lower(rest)))); }
        Lower(StripMarks(Decompose(LowerChar(c)))) + Lower(StripMarks(Nfd(Lower(rest))));
        Lower(StripMarks(Decompose(c))) + Lower(StripMarks(Nfd(rest)));
        { LowerAppend(StripMarks(Decompose(c)), StripMarks(Nfd(rest))); }
        Lower(StripMarks(Decompose(c)) + StripMarks(Nfd(rest)));
        { StripMarksAppend(Decompose(c), Nfd(rest)); }
        Lower(StripMarks(Nfd(s)));
      }
    }
  }

  /** The search ignores case: a string and its lower-case form normalise alike. */
  lemma NormalizeStringIgnoresCase(s: string)
    ensures NormalizeString(Lower(s)) == NormalizeString(s)
  {
    FoldIgnoresCase(s);
  }

  /** Plain text followed by one accented letter keeps the text and the letter's base. */
  lemma StripMarksNfdAccentedLast(p: string, c: char)
    requires forall i :: 0 <= i < |p| ==> !IsDecomposable(p[i]) && !IsCombiningMark(p[i])
    requires IsDecomposable(c)
    ensures StripMarks(Nfd(p + [c])) == p + [Decompose(c)[0]]
  {
    var d := Decompose(c);
    NfdOfPlainThen(p, c);
    StripMarksAppend(p, d);
    StripMarksOfPlain(p);
    StripMarksOfPair(d);
  }

  /** Decomposing text with nothing to decompose and one more letter decomposes only that letter. */
  lemma NfdOfPlainThen(p: string, c: char)
    requires forall i :: 0 <= i < |p| ==> !IsDecomposable(p[i])
    ensures Nfd(p + [c]) == p + Decompose(c)
  {
    NfdAppend(p, [c]);
    NfdOfPlain(p);
    NfdOfSingle(c);
  }

  lemma NfdOfSingle(c: char)
    ensures Nfd([c]) == Decompose(c)
  {
    assert [c][1..] == [];
  }

  /** Normalisation is the stripped decomposition, lower-cased, when that needs no trimming. */
  lemma NormalizeStringOfStripped(s: string, stripped: string, lowered: string)
    requires s != "" && StripMarks(Nfd(s)) == stripped && Lower(stripped) == lowered
    requires lowered == [] || (!IsWhitespace(lowered[0]) && !IsWhitespace(lowered[|lowered| - 1]))
    ensures NormalizeString(s) == lowered
  {
    TrimOfTrimmed(lowered);
  }

  /** Accent and capital both go: "Café" normalises to "cafe". */
  lemma NormalizeStringExample()
    ensures NormalizeString("Caf\U{00E9}") == "cafe"
  {
    StripMarksNfdExample();
    LowerCafe();
    NormalizeStringOfStripped("Caf\U{00E9}", "Cafe", "cafe");
  }

  /** "é" decomposes to "e" and the acute accent. */
  lemma DecomposeExample()
    ensures IsDecomposable('\U{00E9}') && Decompose('\U{00E9}')[0] == 'e'
  {
    assert Latin1Decomposition(9, true) == "E\U{0301}";
    assert ('\U{00E9}' as int - 0xC0) % 32 == 9;
  }

  lemma StripMarksNfdExample()
    ensures StripMarks(Nfd("Caf\U{00E9}")) == "Cafe"
  {
    DecomposeExample();
    StripMarksNfdAccentedLast("Caf", '\U{00E9}');
    assert "Caf" + ['\U{00E9}'] == "Caf\U{00E9}";
    assert "Caf" + ['e'] == "Cafe";
  }

  lemma LowerCafe()
    ensures Lower("Cafe") == "cafe"
  {
    LowerAppend("C", "afe");
    LowerOfNoUpper("afe");
    assert Lower("C") == "c";
    assert "C" + "afe" == "Cafe";
  }

  // ---------------------------------------------------------------------------
  // formatCPFCNPJ
  // ---------------------------------------------------------------------------

  /** CPF layout `DDD.DDD.DDD-DD` of eleven digits. */
  function CpfLayout(d: string): (r: string)
    requires |d| == 11
  {
    d[..3] + "." + d[3..6] + "." + d[6..9] + "-" + d[9..]
  }

  /** CNPJ layout `DD.DDD.DDD/DDDD-DD` of fourteen digits. */
  function CnpjLayout(d: string): (r: string)
    requires |d| == 14
  {
    d[..2] + "." + d[2..5] + "." + d[5..8] + "/" + d[8..12] + "-" + d[12..]
  }

  /**
    `formatCPFCNPJ`: eleven digits as a CPF, fourteen as a CNPJ; any other digit
    count leaves the original text (not the stripped digits) unchanged.
   */
  function FormatCpfCnpj(value: string): (r: string)
    ensures value == "" ==> r == ""
    ensures |Digits(value)| == 11 ==> |r| == 14 && r == CpfLayout(Digits(value))
    ensures |Digits(value)| == 14 ==> |r| == 18 && r == CnpjLayout(Digits(value))
    ensures |Digits(value)| != 11 && |Digits(value)| != 14 ==> r == value
  {
    if value == "" then ""
    else
      var cleaned := Digits(value);
      if |cleaned| == 11 then CpfLayout(cleaned)
      else if |cleaned| == 14 then CnpjLayout(cleaned)
      else value
  }

  lemma CpfLayoutDigits(d: string)
    requires |d| == 11 && AllDigits(d)
    ensures Digits(CpfLayout(d)) == d
  {
    var p1 := d[..3] + ".";
    var p2 := p1 + d[3..6];
    var p3 := p2 + ".";
    var p4 := p3 + d[6..9];
    var p5 := p4 + "-";
    DigitsOfDigits(d[..3]);
    DigitsAppendSeparator(d[..3], ".");
    DigitsAppendDigits(p1, d[3..6]);
    DigitsAppendSeparator(p2, ".");
    DigitsAppendDigits(p3, d[6..9]);
    DigitsAppendSeparator(p4, "-");
    DigitsAppendDigits(p5, d[9..]);
    assert CpfLayout(d) == p5 + d[9..];
    assert d[..3] + d[3..6] + d[6..9] + d[9..] == d;
  }

  lemma CnpjLayoutDigits(d: string)
    requires |d| == 14 && AllDigits(d)
    ensures Digits(CnpjLayout(d)) == d
  {
    var p1 := d[..2] + ".";
    var p2 := p1 + d[2..5];
    var p3 := p2 + ".";
    var p4 := p3 + d[5..8];
    var p5 := p4 + "/";
    var p6 := p5 + d[8..12];
    var p7 := p6 + "-";
    DigitsOfDigits(d[..2]);
    DigitsAppendSeparator(d[..2], ".");
    DigitsAppendDigits(p1, d[2..5]);
    DigitsAppendSeparator(p2, ".");
    DigitsAppendDigits(p3, d[5..8]);
    DigitsAppendSeparator(p4, "/");
    DigitsAppendDigits(p5, d[8..12]);
    DigitsAppendSeparator(p6, "-");
    DigitsAppendDigits(p7, d[12..]);
    assert CnpjLayout(d) == p7 + d[12..];
    assert d[..2] + d[2..5] + d[5..8] + d[8..12] + d[12..] == d;
  }

  /** Every digit of the input appears in the output, in order, and no other digit does. */
  lemma FormatCpfCnpjKeepsDigits(value: string)
    ensures Digits(FormatCpfCnpj(value)) == Digits(value)
  {
    var d := Digits(value);
    if value != "" && |d| == 11 {
      CpfLayoutDigits(d);
    } else if value != "" && |d| == 14 {
      CnpjLayoutDigits(d);
    }
  }

  /** The CPF layout position by position. */
  lemma CpfLayoutShape(d: string)
    requires |d| == 11
    ensures var r := CpfLayout(d);
      && |r| == 14
      && r[..3] == d[..3] && r[3] == '.' && r[4..7] == d[3..6] && r[7] == '.'
      && r[8..11] == d[6..9] && r[11] == '-' && r[12..] == d[9..]
  {
    var p := d[..3] + "." + d[3..6] + "." + d[6..9] + "-";
    assert |p| == 12;
    assert p[..3] == d[..3] && p[3] == '.' && p[4..7] == d[3..6] && p[7] == '.';
    assert p[8..11] == d[6..9] && p[11] == '-';
    var r := p + d[9..];
    assert r[..12] == p;
  }

  /** The CNPJ layout position by position. */
  lemma CnpjLayoutShape(d: string)
    requires |d| == 14
    ensures var r := CnpjLayout(d);
      && |r| == 18
      && r[..2] == d[..2] && r[2] == '.' && r[3..6] == d[2..5] && r[6] == '.'
      && r[7..10] == d[5..8] && r[10] == '/' && r[11..15] == d[8..12] && r[15] == '-'
      && r[16..] == d[12..]
  {
    var p := d[..2] + "." + d[2..5] + "." + d[5..8] + "/" + d[8..12] + "-";
    assert |p| == 16;
    assert p[..2] == d[..2] && p[2] == '.' && p[3..6] == d[2..5] && p[6] == '.';
    assert p[7..10] == d[5..8] && p[10] == '/' && p[11..15] == d[8..12] && p[15] == '-';
    var r := p + d[12..];
    assert r[..16] == p;
  }

  /** Formatting a formatted document changes nothing. */
  lemma FormatCpfCnpjIdempotent(value: string)
    ensures FormatCpfCnpj(FormatCpfCnpj(value)) == FormatCpfCnpj(value)
  {
    FormatCpfCnpjKeepsDigits(value);
  }

  lemma CpfLayoutExample()
    ensures CpfLayout("12345678901") == "123.456.789-01"
  {
    var d := "12345678901";
    assert d[..3] == "123" && d[3..6] == "456" && d[6..9] == "789" && d[9..] == "01";
  }

  /** A bare eleven-digit string is laid out as a CPF. */
  lemma FormatCpfCnpjOfBareCpf(d: string)
    requires |d| == 11 && AllDigits(d)
    ensures FormatCpfCnpj(d) == CpfLayout(d)
  {
    DigitsOfDigits(d);
  }

  lemma FormatCpfExample()
    ensures FormatCpfCnpj("12345678901") == "123.456.789-01"
  {
    CpfLayoutExample();
    FormatCpfCnpjOfBareCpf("12345678901");
  }

  lemma CnpjLayoutExample()
    ensures CnpjLayout("12345678000199") == "12.345.678/0001-99"
  {
    var d := "12345678000199";
    assert d[..2] == "12" && d[2..5] == "345" && d[5..8] == "678" && d[8..12] == "0001" && d[12..] == "99";
  }

  /** A bare fourteen-digit string is laid out as a CNPJ. */
  lemma FormatCpfCnpjOfBareCnpj(d: string)
    requires |d| == 14 && AllDigits(d)
    ensures FormatCpfCnpj(d) == CnpjLayout(d)
  {
    DigitsOfDigits(d);
  }

  lemma FormatCnpjExample()
    ensures FormatCpfCnpj("12345678000199") == "12.345.678/0001-99"
  {
    CnpjLayoutExample();
    FormatCpfCnpjOfBareCnpj("12345678000199");
  }

  lemma FormatCpfCnpjNineDigitsExample()
    ensures FormatCpfCnpj("123456789") == "123456789"
  {
    FormatCpfCnpjOfOtherDigits("123456789");
  }

  /** A run of digits that is neither a CPF nor a CNPJ is kept as it is. */
  lemma FormatCpfCnpjOfOtherDigits(d: string)
    requires d != "" && AllDigits(d) && |d| != 11 && |d| != 14
    ensures FormatCpfCnpj(d) == d
  {
    DigitsOfDigits(d);
  }
}
