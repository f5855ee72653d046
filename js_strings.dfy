/** The JavaScript string and number primitives the script relies on:
    `indexOf`, `split`, `toLowerCase`, `parseInt(_, 10)` and the conversion of
    an integral number to its decimal text. Strings are sequences of
    characters; JavaScript's UTF-16 code units are not modelled. */
module JsStrings {
  import opened Wrappers

  /** `sub` occurs in `s` starting at position `i`. */
  ghost predicate OccursAt(s: string, sub: string, i: int) {
    0 <= i && i + |sub| <= |s| && s[i..i + |sub|] == sub
  }

  lemma OccursAtTail(s: string, sub: string, i: int)
    requires |s| > 0 && 0 <= i
    ensures OccursAt(s[1..], sub, i) <==> OccursAt(s, sub, i + 1)
  {
    if i + |sub| <= |s[1..]| {
      assert s[1..][i..i + |sub|] == s[i + 1..i + 1 + |sub|];
    }
  }

  /** `s.indexOf(sub)`: the first position at which `sub` occurs in `s`, or -1. */
  function IndexOf(s: string, sub: string): (r: int)
    ensures -1 <= r <= |s|
    ensures r >= 0 ==> OccursAt(s, sub, r)
    ensures forall i {:trigger OccursAt(s, sub, i)} :: 0 <= i && (r == -1 || i < r) ==> !OccursAt(s, sub, i)
    decreases |s|
  {
    if |sub| > |s| then -1
    else if s[..|sub|] == sub then 0
    else
      var k := IndexOf(s[1..], sub);
      forall i | 1 <= i ensures OccursAt(s, sub, i) <==> OccursAt(s[1..], sub, i - 1) {
        OccursAtTail(s, sub, i - 1);
      }
      assert !OccursAt(s, sub, 0);
      if k == -1 then -1 else k + 1
  }

  /** `indexOf` finds `sub` exactly when `sub` occurs somewhere in `s`. */
  lemma IndexOfFinds(s: string, sub: string)
    ensures IndexOf(s, sub) >= 0 <==> exists i :: OccursAt(s, sub, i)
  {
    var r := IndexOf(s, sub);
    if r >= 0 {
      assert OccursAt(s, sub, r);
    }
  }

  /** The empty string occurs at position 0 of every string. */
  lemma IndexOfEmpty(s: string)
    ensures IndexOf(s, "") == 0
  {
    assert OccursAt(s, "", 0);
  }

  /** `s.split(c)[0]` for a one-character separator: the text before the
      first `c`, or all of `s` when it has none. */
  function BeforeFirst(s: string, c: char): (r: string)
    ensures |r| <= |s| && r == s[..|r|]
    ensures c !in r
    ensures |r| < |s| ==> s[|r|] == c
  {
    if s == [] || s[0] == c then [] else [s[0]] + BeforeFirst(s[1..], c)
  }

  /** `s.split(sep)[1]` for a non-empty separator: the text between the first
      and the second occurrence of `sep` (or the end of `s`); `None` stands
      for `undefined`, when `sep` does not occur at all. */
  function SecondPiece(s: string, sep: string): Option<string>
    requires sep != []
  {
    var i := IndexOf(s, sep);
    if i < 0 then None
    else
      var rest := s[i + |sep|..];
      var j := IndexOf(rest, sep);
      Some(if j < 0 then rest else rest[..j])
  }

  /** `s.split(sep)[1]` is `undefined` exactly when `sep` does not occur in `s`. */
  lemma SecondPieceUndefined(s: string, sep: string)
    requires sep != []
    ensures SecondPiece(s, sep).None? <==> forall p :: !OccursAt(s, sep, p)
  {
  }

  /** Otherwise it is the text that starts right after the first occurrence
      of `sep`, holds no occurrence of `sep`, and ends at the next occurrence
      (the first one in the rest, even for a separator that overlaps itself)
      or at the end of `s`. */
  lemma SecondPieceBetween(s: string, sep: string)
    requires sep != [] && SecondPiece(s, sep).Some?
    ensures
      var piece := SecondPiece(s, sep).value;
      var p := IndexOf(s, sep);
      var rest := s[p + |sep|..];
      && OccursAt(s, sep, p)
      && |piece| <= |rest| && rest[..|piece|] == piece
      && (forall q :: 0 <= q ==> !OccursAt(piece, sep, q))
      && (forall q :: 0 <= q < |piece| ==> !OccursAt(rest, sep, q))
      && (piece == rest || OccursAt(rest, sep, |piece|))
  {
    var k := IndexOf(s, sep) + |sep|;
    SecondPieceShape(s, sep);
    PieceEnds(s[k..], sep, IndexOf(s[k..], sep), SecondPiece(s, sep).value);
    SecondPieceClean(s, sep);
  }

  /** With a separator that overlaps itself the piece still ends at the first
      separator after the first one: "aaxaaa".split("aa")[1] is "x". */
  lemma SecondPieceOverlapping()
    ensures SecondPiece("aaxaaa", "aa") == Some("x")
  {
    var s: string := "aaxaaa";
    assert s[..2] == "aa";
    assert IndexOf(s, "aa") == 0;
    var rest := s[2..];
    assert rest == "xaaa";
    assert rest[0] == 'x' && rest[..2][0] == 'x';
    assert rest[1..] == "aaa" && rest[1..][..2] == "aa";
    assert IndexOf(rest[1..], "aa") == 0;
    assert IndexOf(rest, "aa") == 1;
    assert rest[..1] == "x";
  }

  /** The second piece is a prefix of the text after the first separator. */
  lemma SecondPieceShape(s: string, sep: string)
    requires sep != [] && SecondPiece(s, sep).Some?
    ensures var k := IndexOf(s, sep) + |sep|;
      var j := IndexOf(s[k..], sep);
      SecondPiece(s, sep).value == if j < 0 then s[k..] else s[k..][..j]
  {
  }

  /** The text before the first separator of `rest` is a prefix of `rest`
      that is all of it or is followed by the separator. */
  lemma PieceEnds(rest: string, sep: string, j: int, piece: string)
    requires j == IndexOf(rest, sep)
    requires piece == if j < 0 then rest else rest[..j]
    ensures |piece| <= |rest| && rest[..|piece|] == piece
    ensures forall q :: 0 <= q < |piece| ==> !OccursAt(rest, sep, q)
    ensures piece == rest || OccursAt(rest, sep, |piece|)
  {
  }

  lemma SecondPieceClean(s: string, sep: string)
    requires sep != [] && SecondPiece(s, sep).Some?
    ensures forall q :: 0 <= q ==> !OccursAt(SecondPiece(s, sep).value, sep, q)
  {
    var i := IndexOf(s, sep);
    var rest := s[i + |sep|..];
    var j := IndexOf(rest, sep);
    var piece := if j < 0 then rest else rest[..j];
    PieceHasNoSeparator(rest, sep, j, piece);
  }

  lemma PieceHasNoSeparator(rest: string, sep: string, j: int, piece: string)
    requires sep != [] && j == IndexOf(rest, sep)
    requires piece == if j < 0 then rest else rest[..j]
    ensures forall q :: 0 <= q ==> !OccursAt(piece, sep, q)
  {
    forall q | 0 <= q ensures !OccursAt(piece, sep, q) {
      if OccursAt(piece, sep, q) {
        assert piece[q..q + |sep|] == rest[q..q + |sep|];
        assert OccursAt(rest, sep, q);
      }
    }
  }

  /** A JavaScript LineTerminator: what `.` in a regular expression does not match. */
  predicate IsLineTerminator(c: char) {
    c == '\n' || c == '\r' || c == '\U{2028}' || c == '\U{2029}'
  }

  /** The characters `parseInt` skips before the number: WhiteSpace and LineTerminator. */
  predicate IsStrWhiteSpace(c: char) {
    || IsLineTerminator(c)
    || c == '\t' || c == '\U{000B}' || c == '\U{000C}' || c == ' '
    || c == '\U{00A0}' || c == '\U{FEFF}' || c == '\U{1680}'
    || ('\U{2000}' <= c <= '\U{200A}')
    || c == '\U{202F}' || c == '\U{205F}' || c == '\U{3000}'
  }

  predicate IsDigit(c: char) {
    '0' <= c <= '9'
  }

  /** `s` without its leading white space. */
  function TrimStart(s: string): string {
    if s != [] && IsStrWhiteSpace(s[0]) then TrimStart(s[1..]) else s
  }

  /** Trimming removes exactly the white space at the start: what is left is
      a suffix of `s` that does not begin with white space. */
  lemma {:induction false} TrimStartMeaning(s: string)
    ensures var r := TrimStart(s);
      && |r| <= |s| && r == s[|s| - |r|..]
      && (forall i :: 0 <= i < |s| - |r| ==> IsStrWhiteSpace(s[i]))
      && (r != [] ==> !IsStrWhiteSpace(r[0]))
  {
    if s != [] && IsStrWhiteSpace(s[0]) {
      var t := s[1..];
      TrimStartMeaning(t);
      var r := TrimStart(t);
      assert TrimStart(s) == r;
      assert t[|t| - |r|..] == s[|s| - |r|..];
      forall i | 1 <= i < |s| - |r| ensures IsStrWhiteSpace(s[i]) {
        assert s[i] == t[i - 1];
      }
    }
  }

  /** The longest prefix of `s` made of decimal digits. */
  function DigitPrefix(s: string): string {
    if s != [] && IsDigit(s[0]) then [s[0]] + DigitPrefix(s[1..]) else []
  }

  /** The value of a string of decimal digits, most significant first. */
  function DigitsValue(ds: string): int {
    if ds == [] then 0
    else DigitsValue(ds[..|ds| - 1]) * 10 + (ds[|ds| - 1] as int - '0' as int)
  }

  /** `parseInt(s, 10)`: skip white space, read an optional sign and the
      longest run of decimal digits; `None` stands for NaN, when there is no
      digit. A leading `-` before the digits 0 gives -0, which is 0 here. */
  function ParseInt(s: string): Option<int> {
    var t := TrimStart(s);
    var negative := t != [] && t[0] == '-';
    var u := if t != [] && (t[0] == '-' || t[0] == '+') then t[1..] else t;
    var digits := DigitPrefix(u);
    if digits == [] then None
    else Some(if negative then -DigitsValue(digits) else DigitsValue(digits))
  }

  /** `parseInt(x, 10)` where `x` may be `undefined`, which reads as the text
      "undefined" and so gives NaN. */
  function ParseIntOrNaN(s: Option<string>): Option<int> {
    match s
    case None => None
    case Some(text) => ParseInt(text)
  }

  function DigitChar(d: nat): (c: char)
    requires d < 10
    ensures IsDigit(c) && c as int - '0' as int == d
  {
    ('0' as int + d) as char
  }

  /** The decimal text of a natural number, without leading zeros. */
  function NatToString(n: nat): string
    decreases n
  {
    if n < 10 then [DigitChar(n)] else NatToString(n / 10) + [DigitChar(n % 10)]
  }

  /** `String(n)` for an integral number below 10^21 in magnitude. */
  function IntToString(n: int): string {
    if n < 0 then "-" + NatToString(-n) else NatToString(n)
  }

  /** The decimal text of a natural number is a non-empty run of digits
      whose first digit is 0 only for the number 0. */
  lemma {:induction false} NatToStringDigits(n: nat)
    ensures var s := NatToString(n);
      && s != []
      && (forall i :: 0 <= i < |s| ==> IsDigit(s[i]))
      && (s[0] == '0' ==> n == 0)
    decreases n
  {
    if n >= 10 {
      NatToStringDigits(n / 10);
    }
  }

  /** Reading back the digits of a natural number gives the number. */
  lemma {:induction false} DigitsValueOfNatToString(n: nat)
    ensures DigitsValue(NatToString(n)) == n
    decreases n
  {
    var s := NatToString(n);
    if n >= 10 {
      DigitsValueOfNatToString(n / 10);
      assert s[..|s| - 1] == NatToString(n / 10);
    }
  }

  /** The digit run of a digit string followed by a non-digit is that string. */
  lemma {:induction false} DigitPrefixOfDigits(digits: string, rest: string)
    requires forall i :: 0 <= i < |digits| ==> IsDigit(digits[i])
    requires rest == [] || !IsDigit(rest[0])
    ensures DigitPrefix(digits + rest) == digits
    decreases |digits|
  {
    if digits == [] {
      assert digits + rest == rest;
    } else {
      assert (digits + rest)[1..] == digits[1..] + rest;
      DigitPrefixOfDigits(digits[1..], rest);
    }
  }

  /** `parseInt` reads a text that starts with digits as their value. */
  lemma ParseIntUnsigned(u: string)
    requires DigitPrefix(u) != []
    ensures ParseInt(u) == Some(DigitsValue(DigitPrefix(u)))
  {
    assert TrimStart(u) == u;
  }

  /** ... and the same text after a minus sign as the negated value. */
  lemma ParseIntNegative(u: string)
    requires DigitPrefix(u) != []
    ensures ParseInt("-" + u) == Some(-DigitsValue(DigitPrefix(u)))
  {
    var s := "-" + u;
    assert TrimStart(s) == s;
    assert s[1..] == u;
  }

  /** `parseInt` reads back what `String` writes, whatever non-digit text follows. */
  lemma ParseIntOfIntToString(n: int, rest: string)
    requires rest == [] || !IsDigit(rest[0])
    ensures ParseInt(IntToString(n) + rest) == Some(n)
  {
    var m: nat := if n < 0 then -n else n;
    NatToStringDigits(m);
    DigitsValueOfNatToString(m);
    var digits := NatToString(m);
    DigitPrefixOfDigits(digits, rest);
    if n < 0 {
      ParseIntNegative(digits + rest);
      assert IntToString(n) + rest == "-" + (digits + rest);
    } else {
      ParseIntUnsigned(digits + rest);
    }
  }

  /** `c.toLowerCase()` on the Latin capitals A-Z; every other character is kept. */
  function ToLowerChar(c: char): char {
    if 'A' <= c <= 'Z' then (c as int - 'A' as int + 'a' as int) as char else c
  }

  /** `s.toLowerCase()`, folding ASCII capitals only. */
  function ToLower(s: string): (r: string)
    ensures |r| == |s|
    ensures forall i :: 0 <= i < |s| ==> r[i] == ToLowerChar(s[i])
  {
    if s == [] then [] else [ToLowerChar(s[0])] + ToLower(s[1..])
  }
}
