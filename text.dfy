/**
  The C++ string primitives the graph-file parser relies on, stated over
  `seq<char>`: `find`, `find_first_of`, `find_last_of` and `substr` of
  `std::string`, the `size_t` arithmetic done on the positions they return
  (including the wrap-around of `npos`), and the number conversions
  `std::stoi` and `std::strtof`.
 */
module Text {

  /** `size_t` is a 64-bit unsigned integer; arithmetic on it wraps around. */
  const SIZE_T_MODULUS: nat := 0x1_0000_0000_0000_0000
  /** `std::string::npos`, the largest `size_t`. */
  const NPOS: nat := SIZE_T_MODULUS - 1

  /** Every string is shorter than this: `max_size()` of `std::string` is
      below 2^63. */
  const MAX_SIZE: nat := 0x8000_0000_0000_0000

  /** The range of a 32-bit `int`, the result type of `std::stoi`. */
  const INT_MIN: int := -0x8000_0000
  const INT_MAX: int := 0x7FFF_FFFF

  /** The exceptions `std::stoi` and `std::string::substr` throw. */
  datatype Error = InvalidArgument | OutOfRange

  datatype Result<+T> = Ok(value: T) | Err(error: Error) {
    predicate IsFailure() { Err? }
    function PropagateFailure<U>(): Result<U> {
      match this
      case Err(e) => Err(e)
      case Ok(_) => Err(InvalidArgument)
    }
    function Extract(): T requires Ok? { value }
  }

  datatype Option<+T> = None | Some(value: T)

  /** What a search on a string returns: an index, or "not found" (`npos`). */
  datatype Pos = NotFound | At(index: nat)

  /** The `size_t` value of a search result. */
  function SizeT(p: Pos): nat {
    match p
    case NotFound => NPOS
    case At(i) => i
  }

  /** `a + b` on `size_t`. */
  function AddSize(a: nat, b: nat): (r: nat)
    ensures r < SIZE_T_MODULUS && r <= a + b
    ensures a + b < SIZE_T_MODULUS ==> r == a + b
    ensures SIZE_T_MODULUS <= a + b < 2 * SIZE_T_MODULUS ==> r == a + b - SIZE_T_MODULUS
  {
    (a + b) % SIZE_T_MODULUS
  }

  /** `a - b` on `size_t`: wraps to a huge value when `b > a`. */
  function SubSize(a: nat, b: nat): (r: nat)
    ensures r < SIZE_T_MODULUS
    ensures b <= a < SIZE_T_MODULUS ==> r == a - b
    ensures a < b < SIZE_T_MODULUS ==> r == SIZE_T_MODULUS - (b - a)
  {
    (a - b) % SIZE_T_MODULUS
  }

  /** The pattern `pat` occurs in `s` starting at index `j`. */
  predicate MatchAt(s: string, pat: string, j: nat) {
    j + |pat| <= |s| && forall k :: 0 <= k < |pat| ==> s[j + k] == pat[k]
  }

  /** `s.find(pat, from)`: the first occurrence of `pat` at or after `from`. */
  function FindFrom(s: string, pat: string, from: nat): (r: Pos)
    requires from <= |s|
    ensures r.At? ==> from <= r.index <= |s|
    decreases |s| - from
  {
    if MatchAt(s, pat, from) then At(from)
    else if from == |s| then NotFound
    else FindFrom(s, pat, from + 1)
  }

  /** `FindFrom` finds the first match at or after `from`, and reports none
      only when there is none. */
  lemma {:induction false} FindFromSpec(s: string, pat: string, from: nat)
    requires from <= |s|
    ensures var r := FindFrom(s, pat, from);
      && (r.At? ==> MatchAt(s, pat, r.index) && forall j :: from <= j < r.index ==> !MatchAt(s, pat, j))
      && (r.NotFound? ==> forall j :: from <= j <= |s| ==> !MatchAt(s, pat, j))
    decreases |s| - from
  {
    if !MatchAt(s, pat, from) && from < |s| {
      FindFromSpec(s, pat, from + 1);
    }
  }

  /** `s.find(pat)`. */
  function Find(s: string, pat: string): Pos {
    FindFrom(s, pat, 0)
  }

  /** `s.find(pat) != string::npos`. */
  predicate Contains(s: string, pat: string) {
    Find(s, pat).At?
  }

  /** The first index at or after `i` that holds `c`. */
  function FirstOfFrom(s: string, c: char, i: nat): (r: Pos)
    requires i <= |s|
    ensures r.At? ==> i <= r.index < |s|
    decreases |s| - i
  {
    if i == |s| then NotFound
    else if s[i] == c then At(i)
    else FirstOfFrom(s, c, i + 1)
  }

  /** `FirstOfFrom` stops at the first `c` at or after `i`, and reports none
      only when there is none. */
  lemma {:induction false} FirstOfFromSpec(s: string, c: char, i: nat)
    requires i <= |s|
    ensures var r := FirstOfFrom(s, c, i);
      && (r.At? ==> s[r.index] == c && forall k :: i <= k < r.index ==> s[k] != c)
      && (r.NotFound? ==> forall k :: i <= k < |s| ==> s[k] != c)
    decreases |s| - i
  {
    if i < |s| && s[i] != c {
      FirstOfFromSpec(s, c, i + 1);
    }
  }

  /** `s.find_first_of(c)` for a single character `c` (this is also `s.find(c)`). */
  function FindFirstOf(s: string, c: char): (r: Pos)
    ensures r.At? ==> r.index < |s| && s[r.index] == c && forall k :: 0 <= k < r.index ==> s[k] != c
    ensures r.NotFound? <==> c !in s
  {
    FirstOfFromSpec(s, c, 0);
    FirstOfFrom(s, c, 0)
  }

  /** The last index below `j` that holds `c`. */
  function LastOfBelow(s: string, c: char, j: nat): (r: Pos)
    requires j <= |s|
    ensures r.At? ==> r.index < j
  {
    if j == 0 then NotFound
    else if s[j - 1] == c then At(j - 1)
    else LastOfBelow(s, c, j - 1)
  }

  /** `LastOfBelow` stops at the last `c` below `j`, and reports none only
      when there is none. */
  lemma {:induction false} LastOfBelowSpec(s: string, c: char, j: nat)
    requires j <= |s|
    ensures var r := LastOfBelow(s, c, j);
      && (r.At? ==> s[r.index] == c && forall k :: r.index < k < j ==> s[k] != c)
      && (r.NotFound? ==> forall k :: 0 <= k < j ==> s[k] != c)
  {
    if 0 < j && s[j - 1] != c {
      LastOfBelowSpec(s, c, j - 1);
    }
  }

  /** `s.find_last_of(c)` for a single character `c`. */
  function FindLastOf(s: string, c: char): (r: Pos)
    ensures r.At? ==> r.index < |s| && s[r.index] == c && forall k :: r.index < k < |s| ==> s[k] != c
    ensures r.NotFound? <==> c !in s
  {
    LastOfBelowSpec(s, c, |s|);
    LastOfBelow(s, c, |s|)
  }

  /** The first occurrence of `c` in `s` is at `i` exactly when `s[i] == c`
      and `c` does not occur before `i`. */
  lemma FirstOfAt(s: string, c: char, i: nat)
    requires i < |s| && s[i] == c && forall k :: 0 <= k < i ==> s[k] != c
    ensures FindFirstOf(s, c) == At(i)
  {
    assert s[i] in s;
  }

  /** The last occurrence of `c` in `s` is at `i` exactly when `s[i] == c`
      and `c` does not occur after `i`. */
  lemma LastOfAt(s: string, c: char, i: nat)
    requires i < |s| && s[i] == c && forall k :: i < k < |s| ==> s[k] != c
    ensures FindLastOf(s, c) == At(i)
  {
    assert s[i] in s;
  }

  /** `find` succeeds once the pattern occurs somewhere. */
  lemma ContainsAt(s: string, pat: string, j: nat)
    requires MatchAt(s, pat, j)
    ensures Contains(s, pat)
  {
    FindFromSpec(s, pat, 0);
  }

  /** A found pattern's first character occurs in the string. */
  lemma ContainsFirst(s: string, pat: string)
    requires pat != [] && Contains(s, pat)
    ensures pat[0] in s
  {
    FindFromSpec(s, pat, 0);
    var j := Find(s, pat).index;
    assert s[j + 0] == pat[0];
    assert s[j] in s;
  }

  /** `s.substr(pos, len)`: throws `out_of_range` when `pos > s.size()`, and
      otherwise takes at most `len` characters. */
  function Substr(s: string, pos: nat, len: nat): (r: Result<string>)
    ensures r.Err? <==> pos > |s|
    ensures r.Ok? ==> r.value == s[pos..if len <= |s| - pos then pos + len else |s|]
  {
    if pos > |s| then Err(OutOfRange)
    else if len <= |s| - pos then Ok(s[pos..pos + len])
    else Ok(s[pos..])
  }

  /** `s.substr(0, npos)` is the whole string. */
  lemma SubstrWhole(s: string)
    requires |s| < MAX_SIZE
    ensures Substr(s, 0, NPOS) == Ok(s)
  {
  }

  /** A length reaching past the end takes the rest of the string. */
  lemma SubstrRest(s: string, pos: nat, len: nat)
    requires pos <= |s| && |s| - pos <= len
    ensures Substr(s, pos, len) == Ok(s[pos..])
  {
    if len <= |s| - pos {
      assert s[pos..pos + len] == s[pos..];
    }
  }

  /** `s.substr(pos)`, whose length argument is `npos`: everything from
      `pos` on, since no string is longer than `npos`. */
  function SubstrFrom(s: string, pos: nat): (r: Result<string>)
    ensures r.Err? <==> pos > |s|
    ensures r.Ok? ==> r.value == s[pos..]
  {
    if pos > |s| then Err(OutOfRange) else Ok(s[pos..])
  }

  /** The characters `isspace` accepts in the "C" locale. */
  predicate IsSpace(c: char) {
    c == ' ' || c == '\t' || c == '\n' || c == '\r' || c == '\U{000B}' || c == '\U{000C}'
  }

  predicate IsDigit(c: char) {
    '0' <= c <= '9'
  }

  /** The index of the first character at or after `i` that is not white space. */
  function SpacesEnd(s: string, i: nat): (j: nat)
    requires i <= |s|
    ensures i <= j <= |s|
    decreases |s| - i
  {
    if i < |s| && IsSpace(s[i]) then SpacesEnd(s, i + 1) else i
  }

  /** The text after the leading white space, where `strtol` and `strtof` start. */
  function DropSpaces(s: string): string {
    s[SpacesEnd(s, 0)..]
  }

  /** The index of the first character at or after `i` that is not a digit. */
  function DigitsEnd(s: string, i: nat): (j: nat)
    requires i <= |s|
    ensures i <= j <= |s|
    decreases |s| - i
  {
    if i < |s| && IsDigit(s[i]) then DigitsEnd(s, i + 1) else i
  }

  /** `DigitsEnd` stops at the first non-digit at or after `i`. */
  lemma {:induction false} DigitsEndSpec(s: string, i: nat)
    requires i <= |s|
    ensures forall k :: i <= k < DigitsEnd(s, i) ==> IsDigit(s[k])
    ensures DigitsEnd(s, i) == |s| || !IsDigit(s[DigitsEnd(s, i)])
    decreases |s| - i
  {
    if i < |s| && IsDigit(s[i]) {
      DigitsEndSpec(s, i + 1);
    }
  }

  /** The longest prefix of `s` made of decimal digits. */
  function LeadingDigits(s: string): (r: string)
    ensures |r| <= |s| && r == s[..|r|]
    ensures forall k :: 0 <= k < |r| ==> IsDigit(r[k])
    ensures |r| == |s| || !IsDigit(s[|r|])
  {
    DigitsEndSpec(s, 0);
    s[..DigitsEnd(s, 0)]
  }

  /** The number a string of decimal digits denotes. */
  function DigitsValue(ds: string): (n: nat)
    requires forall k :: 0 <= k < |ds| ==> IsDigit(ds[k])
  {
    if ds == [] then 0
    else
      var last := ds[|ds| - 1];
      assert IsDigit(last);
      DigitsValue(ds[..|ds| - 1]) * 10 + (last as int - '0' as int)
  }

  /** The optional sign `strtol` and `strtof` accept: whether it is a minus,
      and the text after it. */
  function Sign(t: string): (bool, string) {
    if t != [] && (t[0] == '-' || t[0] == '+') then (t[0] == '-', t[1..]) else (false, t)
  }

  /** `std::stoi(s)`: `strtol` in base 10 after white space and an optional
      sign; `invalid_argument` when no digit follows, `out_of_range` when the
      number does not fit in an `int`. */
  function Stoi(s: string): (r: Result<int>)
    ensures r.Ok? ==> INT_MIN <= r.value <= INT_MAX
  {
    var (negative, rest) := Sign(DropSpaces(s));
    var ds := LeadingDigits(rest);
    if ds == [] then Err(InvalidArgument)
    else
      var m: int := if negative then -(DigitsValue(ds) as int) else DigitsValue(ds);
      if m < INT_MIN || INT_MAX < m then Err(OutOfRange) else Ok(m)
  }

  function Pow10(k: nat): (r: nat)
    ensures r >= 1
  {
    if k == 0 then 1 else 10 * Pow10(k - 1)
  }

  /** The value of an unsigned decimal numeral at the start of `t`: digits and
      an optional fraction; `None` when there is no digit at all. */
  function UnsignedDecimal(t: string): (r: Option<real>)
    ensures r.Some? ==> 0.0 <= r.value
  {
    var whole := LeadingDigits(t);
    var after := t[|whole|..];
    var fraction := if after != [] && after[0] == '.' then LeadingDigits(after[1..]) else [];
    if fraction == [] then (if whole == [] then None else Some(DigitsValue(whole) as real))
    else Some(DigitsValue(whole) as real + DigitsValue(fraction) as real / Pow10(|fraction|) as real)
  }

  /** `std::strtof(s, 0)` on decimal notation: white space, an optional sign,
      digits, and an optional fraction. With no digit at all, nothing is
      converted and the result is 0. */
  function Strtof(s: string): (r: real)
    ensures r < 0.0 ==> '-' in s
    ensures (forall k :: 0 <= k < |s| ==> !IsDigit(s[k])) ==> r == 0.0
  {
    var (negative, rest) := Sign(DropSpaces(s));
    assert negative ==> DropSpaces(s)[0] in s;
    match UnsignedDecimal(rest)
    case None => 0.0
    case Some(m) => if negative then -m else m
  }

  /** The decimal digits of a natural number, without leading zeros. */
  function Digits(n: nat): (ds: string)
    ensures ds != []
    ensures forall k :: 0 <= k < |ds| ==> IsDigit(ds[k])
  {
    if n < 10 then [('0' as int + n) as char]
    else Digits(n / 10) + [('0' as int + n % 10) as char]
  }

  lemma {:induction false} DigitsValueOfDigits(n: nat)
    ensures DigitsValue(Digits(n)) == n
  {
    if n >= 10 {
      var ds := Digits(n);
      assert ds[..|ds| - 1] == Digits(n / 10);
      DigitsValueOfDigits(n / 10);
    }
  }

  /** The digits end at `j` when `[i, j)` are digits and `j` is not. */
  lemma {:induction false} DigitsEndAt(s: string, i: nat, j: nat)
    requires i <= j <= |s|
    requires forall k :: i <= k < j ==> IsDigit(s[k])
    requires j == |s| || !IsDigit(s[j])
    ensures DigitsEnd(s, i) == j
    decreases j - i
  {
    if i < j {
      DigitsEndAt(s, i + 1, j);
    }
  }

  lemma LeadingDigitsOfDigitRun(ds: string, rest: string)
    requires forall k :: 0 <= k < |ds| ==> IsDigit(ds[k])
    requires rest == [] || !IsDigit(rest[0])
    ensures LeadingDigits(ds + rest) == ds
  {
    DigitsEndAt(ds + rest, 0, |ds|);
    assert (ds + rest)[..|ds|] == ds;
  }

  /** `stoi` reads back a number written in decimal, whatever non-digit text follows it. */
  lemma StoiOfDigits(n: nat, rest: string)
    requires n <= INT_MAX
    requires rest == [] || !IsDigit(rest[0])
    ensures Stoi(Digits(n) + rest) == Ok(n)
  {
    NoSignBeforeDigits(n, rest);
    LeadingDigitsOfDigitRun(Digits(n), rest);
    DigitsValueOfDigits(n);
  }

  /** `strtof` reads back a whole number written in decimal, whatever text
      follows it that is neither a digit nor a decimal point. */
  lemma UnsignedDecimalOfDigitRun(ds: string, rest: string)
    requires ds != [] && forall k :: 0 <= k < |ds| ==> IsDigit(ds[k])
    requires rest == [] || (!IsDigit(rest[0]) && rest[0] != '.')
    ensures UnsignedDecimal(ds + rest) == Some(DigitsValue(ds) as real)
  {
    var t := ds + rest;
    LeadingDigitsOfDigitRun(ds, rest);
    assert t[|ds|..] == rest;
  }

  lemma NoSignBeforeDigits(n: nat, rest: string)
    ensures Sign(DropSpaces(Digits(n) + rest)) == (false, Digits(n) + rest)
  {
    var s := Digits(n) + rest;
    assert s[0] == Digits(n)[0];
    assert DropSpaces(s) == s;
  }

  lemma StrtofOfDigits(n: nat, rest: string)
    requires rest == [] || (!IsDigit(rest[0]) && rest[0] != '.')
    ensures Strtof(Digits(n) + rest) == n as real
  {
    NoSignBeforeDigits(n, rest);
    UnsignedDecimalOfDigitRun(Digits(n), rest);
    DigitsValueOfDigits(n);
  }

  /** An `int` written in decimal, with a minus sign when it is negative. */
  function Signed(n: int): (r: string)
    ensures r != [] && (r[0] == '-' <==> n < 0)
  {
    if n < 0 then "-" + Digits(-n) else Digits(n)
  }

  /** The optional sign and the digits after it are what `stoi` sees of a
      signed numeral. */
  lemma SignOfSigned(n: int, rest: string)
    requires rest == [] || !IsDigit(rest[0])
    ensures var (negative, after) := Sign(DropSpaces(Signed(n) + rest));
      negative == (n < 0) && LeadingDigits(after) == Digits(if n < 0 then -n else n)
  {
    if n < 0 {
      assert Signed(n) + rest == "-" + (Digits(-n) + rest);
      MinusBeforeDigits(-n, rest);
      LeadingDigitsOfDigitRun(Digits(-n), rest);
    } else {
      NoSignBeforeDigits(n, rest);
      LeadingDigitsOfDigitRun(Digits(n), rest);
    }
  }

  lemma MinusBeforeDigits(m: nat, rest: string)
    ensures Sign(DropSpaces("-" + (Digits(m) + rest))) == (true, Digits(m) + rest)
  {
    var s := "-" + (Digits(m) + rest);
    assert s[0] == '-';
    assert DropSpaces(s) == s;
    assert s[1..] == Digits(m) + rest;
  }

  /** `stoi` reads back every `int` written in decimal, of either sign,
      whatever non-digit text follows it. */
  lemma StoiOfSigned(n: int, rest: string)
    requires INT_MIN <= n <= INT_MAX
    requires rest == [] || !IsDigit(rest[0])
    ensures Stoi(Signed(n) + rest) == Ok(n)
  {
    SignOfSigned(n, rest);
    DigitsValueOfDigits(if n < 0 then -n else n);
  }

  /** `stoi` throws `out_of_range` on a numeral outside the `int` range, of
      either sign. */
  lemma StoiOutOfRange(n: int, rest: string)
    requires n < INT_MIN || INT_MAX < n
    requires rest == [] || !IsDigit(rest[0])
    ensures Stoi(Signed(n) + rest) == Err(OutOfRange)
  {
    SignOfSigned(n, rest);
    DigitsValueOfDigits(if n < 0 then -n else n);
  }

  /** `stoi` throws `invalid_argument` on text without a single digit. */
  lemma StoiWithoutDigits(s: string)
    requires forall k :: 0 <= k < |s| ==> !IsDigit(s[k])
    ensures Stoi(s) == Err(InvalidArgument)
  {
    var rest := Sign(DropSpaces(s)).1;
    assert forall k :: 0 <= k < |rest| ==> rest[k] in s;
    if rest != [] {
      assert rest[0] in s;
    }
  }

  /** Without a minus sign in the text, `stoi` yields no negative number. */
  lemma StoiWithoutMinus(s: string)
    requires '-' !in s
    ensures Stoi(s).Ok? ==> 0 <= Stoi(s).value
  {
    var t := DropSpaces(s);
    if t != [] {
      assert t[0] in s;
    }
  }

  /** Skipping white space ignores one more leading blank. */
  lemma DropLeadingSpace(s: string)
    ensures DropSpaces(" " + s) == DropSpaces(s)
  {
    SpacesEndShift(s, 0);
    assert (" " + s)[SpacesEnd(s, 0) + 1..] == s[SpacesEnd(s, 0)..];
  }

  lemma {:induction false} SpacesEndShift(s: string, i: nat)
    requires i <= |s|
    ensures SpacesEnd(" " + s, i + 1) == SpacesEnd(s, i) + 1
    decreases |s| - i
  {
    assert (" " + s)[i + 1..] == s[i..];
    if i < |s| {
      assert (" " + s)[i + 1] == s[i];
      if IsSpace(s[i]) {
        SpacesEndShift(s, i + 1);
      }
    }
  }

  /** `stoi` skips a leading blank. */
  lemma StoiAfterSpace(s: string)
    ensures Stoi(" " + s) == Stoi(s)
  {
    DropLeadingSpace(s);
  }

  /** A number has at most `k` decimal digits exactly when it is below `10^k`. */
  lemma {:induction false} DigitsLength(n: nat, k: nat)
    requires 1 <= k
    ensures |Digits(n)| <= k <==> n < Pow10(k)
  {
    if n >= 10 {
      assert |Digits(n)| == |Digits(n / 10)| + 1;
      if k == 1 {
        assert Pow10(1) == 10;
      } else {
        DigitsLength(n / 10, k - 1);
        assert Pow10(k) == 10 * Pow10(k - 1);
      }
    } else {
      PowerAtLeastTen(k);
    }
  }

  lemma {:induction false} PowerAtLeastTen(k: nat)
    requires 1 <= k
    ensures 10 <= Pow10(k)
  {
    if k > 1 {
      PowerAtLeastTen(k - 1);
    }
  }

  /** The first `c` of `a + b`, when `a` has none, is the first `c` of `b`
      moved past `a`. */
  lemma FirstOfAfter(a: string, b: string, c: char)
    requires c !in a
    ensures FindFirstOf(a + b, c) == match FindFirstOf(b, c) case At(i) => At(|a| + i) case NotFound => NotFound
  {
    match FindFirstOf(b, c)
    case At(i) =>
      assert (a + b)[|a| + i] == c;
      FirstOfAt(a + b, c, |a| + i);
    case NotFound =>
      assert forall k :: 0 <= k < |a + b| ==> (a + b)[k] != c;
  }

  /** The last `c` of `a + b`, when `b` has none, is the last `c` of `a`. */
  lemma LastOfBefore(a: string, b: string, c: char)
    requires c !in b
    ensures FindLastOf(a + b, c) == FindLastOf(a, c)
  {
    match FindLastOf(a, c)
    case At(i) =>
      assert (a + b)[i] == c;
      LastOfAt(a + b, c, i);
    case NotFound =>
      assert forall k :: 0 <= k < |a + b| ==> (a + b)[k] != c;
  }

  /** A pattern is absent when its first character occurs exactly once, at
      an index where the pattern does not match. */
  lemma NotContainsOnce(s: string, pat: string, c: nat)
    requires pat != []
    requires FindFirstOf(s, pat[0]) == At(c) && FindLastOf(s, pat[0]) == At(c)
    requires !MatchAt(s, pat, c)
    ensures !Contains(s, pat)
  {
    FindFromSpec(s, pat, 0);
    MatchAtFirst(s, pat, SizeT(Find(s, pat)));
  }

  /** One differing character rules a match out. */
  lemma MismatchAt(s: string, pat: string, j: nat, k: nat)
    requires k < |pat| && j + k < |s| && s[j + k] != pat[k]
    ensures !MatchAt(s, pat, j)
  {
  }

  lemma MatchAtFirst(s: string, pat: string, j: nat)
    requires pat != []
    ensures MatchAt(s, pat, j) ==> s[j] == pat[0]
  {
    if MatchAt(s, pat, j) {
      assert s[j + 0] == pat[0];
    }
  }

  /** A decimal numeral holds no character other than digits. */
  lemma DigitsLack(n: nat, c: char)
    requires !IsDigit(c)
    ensures c !in Digits(n)
  {
  }
}
