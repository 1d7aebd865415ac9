/** The handful of Python string built-ins the two scripts rely on, stated over
    `seq<char>` (one `char` per Unicode code point, as in a Python `str`):
    `str.strip()`, `str.split()[0]`, `str.replace(c, "")`, `int()` on a stripped
    decimal literal, the `{n:,}` format specifier and the ordering `<` on `str`. */
module Text {
  import opened Wrappers

  /** The texts of the `<td>` cells of one `<tr>` of a scraped page, in order,
      as both scripts read them with `.text`. */
  type Row = seq<string>

  // ---------------------------------------------------------------------------
  // Whitespace and strip()

  /** The code points for which Python's `str.isspace()` holds; these are what
      `str.strip()` removes and what `str.split()` splits on. */
  predicate IsSpace(c: char) {
    || c == ' '
    || ('\t' <= c <= '\r')                     // \t \n \x0b \x0c \r
    || ('\U{1C}' <= c <= '\U{1F}')             // file, group, record, unit separators
    || c == '\U{85}' || c == '\U{A0}' || c == '\U{1680}'
    || ('\U{2000}' <= c <= '\U{200A}')
    || c == '\U{2028}' || c == '\U{2029}' || c == '\U{202F}' || c == '\U{205F}' || c == '\U{3000}'
  }

  predicate AllSpace(s: string) {
    forall i :: 0 <= i < |s| ==> IsSpace(s[i])
  }

  /** Neither end of `s` is whitespace: what `strip()` guarantees of its result. */
  predicate IsStripped(s: string) {
    s == [] || (!IsSpace(s[0]) && !IsSpace(s[|s| - 1]))
  }

  /** The index of the first character of `s` at or after `i` that is not
      whitespace, or `|s|`. */
  function Lead(s: string, i: nat): (k: nat)
    requires i <= |s|
    ensures i <= k <= |s|
    decreases |s| - i
  {
    if i < |s| && IsSpace(s[i]) then Lead(s, i + 1) else i
  }

  /** `Lead` passes over whitespace only, and stops at the first other character. */
  lemma {:induction false} LeadSkipsSpace(s: string, i: nat)
    requires i <= |s|
    ensures forall m :: i <= m < Lead(s, i) ==> IsSpace(s[m])
    ensures Lead(s, i) == |s| || !IsSpace(s[Lead(s, i)])
    decreases |s| - i
  {
    if i < |s| && IsSpace(s[i]) {
      LeadSkipsSpace(s, i + 1);
    }
  }

  /** One past the last character of `s[i..j]` that is not whitespace, or `i`. */
  function Trail(s: string, i: nat, j: nat): (k: nat)
    requires i <= j <= |s|
    ensures i <= k <= j
  {
    if i < j && IsSpace(s[j - 1]) then Trail(s, i, j - 1) else j
  }

  /** `Trail` passes back over whitespace only, and stops after the last other
      character. */
  lemma {:induction false} TrailSkipsSpace(s: string, i: nat, j: nat)
    requires i <= j <= |s|
    ensures forall m :: Trail(s, i, j) <= m < j ==> IsSpace(s[m])
    ensures Trail(s, i, j) == i || !IsSpace(s[Trail(s, i, j) - 1])
  {
    if i < j && IsSpace(s[j - 1]) {
      TrailSkipsSpace(s, i, j - 1);
    }
  }

  /** `s.strip()`: `s` without its leading and trailing whitespace; empty
      exactly when `s` is all whitespace (Python's `if line.strip()` test). */
  function Strip(s: string): string {
    var i := Lead(s, 0);
    s[i..Trail(s, i, |s|)]
  }

  /** What `strip()` promises: the result is a slice of `s` that only
      whitespace surrounds, with no whitespace at either end of its own; so it
      is empty exactly for all-whitespace text. */
  lemma StripShape(s: string)
    ensures exists i, j :: 0 <= i <= j <= |s| && Strip(s) == s[i..j] && AllSpace(s[..i]) && AllSpace(s[j..])
    ensures IsStripped(Strip(s))
    ensures |Strip(s)| <= |s|
    ensures Strip(s) == [] <==> AllSpace(s)
  {
    var i := Lead(s, 0);
    var j := Trail(s, i, |s|);
    LeadSkipsSpace(s, 0);
    TrailSkipsSpace(s, i, |s|);
    assert AllSpace(s[..i]) && AllSpace(s[j..]);
    if i == j {
      assert i == |s|;
    }
  }

  /** Stripping text whose ends are already not whitespace leaves it alone,
      so `strip()` is idempotent. */
  lemma StripStripped(s: string)
    requires IsStripped(s)
    ensures Strip(s) == s
  {
    if s != [] {
      assert Lead(s, 0) == 0;
      assert Trail(s, 0, |s|) == |s|;
    }
  }

  /** Stripping a line that ends in a newline removes just that newline when
      the text before it is stripped and non-empty. */
  lemma StripNewline(t: string)
    requires t != [] && IsStripped(t)
    ensures Strip(t + "\n") == t
  {
    var s := t + "\n";
    assert s[0] == t[0] && s[|t| - 1] == t[|t| - 1];
    assert Lead(s, 0) == 0;
    assert Trail(s, 0, |t|) == |t|;
    assert Trail(s, 0, |s|) == |t|;
    assert s[..|t|] == t;
  }

  // ---------------------------------------------------------------------------
  // split()[0]

  /** The longest prefix of `s` holding no whitespace. */
  function Word(s: string): (w: string)
    ensures |w| <= |s| && w == s[..|w|]
    ensures forall i :: 0 <= i < |w| ==> !IsSpace(w[i])
    ensures |w| == |s| || IsSpace(s[|w|])
  {
    if s == [] || IsSpace(s[0]) then [] else [s[0]] + Word(s[1..])
  }

  /** `s.split()[0]`: the first maximal run of non-whitespace, or `None` where
      `split()` returns an empty list and indexing it raises `IndexError`. */
  function FirstToken(s: string): (t: Option<string>)
    ensures t.None? <==> AllSpace(s)
    ensures t.Some? ==> t.value != [] && forall i :: 0 <= i < |t.value| ==> !IsSpace(t.value[i])
  {
    var i := Lead(s, 0);
    LeadSkipsSpace(s, 0);
    if i == |s| then None else Some(Word(s[i..]))
  }

  /** The token `split()[0]` gives is the first one: it starts right after the
      leading whitespace and runs up to the next whitespace or the end. */
  lemma FirstTokenIsFirstWord(s: string)
    ensures FirstToken(s).Some? ==>
              var t := FirstToken(s).value;
              exists i :: 0 <= i < |s| && AllSpace(s[..i]) && !IsSpace(s[i]) && i + |t| <= |s|
                          && s[i..i + |t|] == t && (i + |t| == |s| || IsSpace(s[i + |t|]))
  {
    var i := Lead(s, 0);
    LeadSkipsSpace(s, 0);
    if i < |s| {
      var t := Word(s[i..]);
      assert AllSpace(s[..i]);
      assert s[i..i + |t|] == s[i..][..|t|];
      assert i + |t| == |s| || s[i + |t|] == s[i..][|t|];
    }
  }

  // ---------------------------------------------------------------------------
  // replace(c, "")

  /** `s.replace(c, "")`: `s` with every occurrence of `c` deleted. */
  function Without(s: string, c: char): string {
    if s == [] then [] else (if s[0] == c then [] else [s[0]]) + Without(s[1..], c)
  }

  /** `replace(c, "")` leaves no `c` behind and never lengthens the text. */
  lemma {:induction false} WithoutDeletes(s: string, c: char)
    ensures c !in Without(s, c)
    ensures |Without(s, c)| <= |s|
  {
    if s != [] {
      WithoutDeletes(s[1..], c);
    }
  }

  lemma {:induction false} WithoutAppend(a: string, b: string, c: char)
    ensures Without(a + b, c) == Without(a, c) + Without(b, c)
  {
    if a == [] {
      assert a + b == b;
    } else {
      assert (a + b)[0] == a[0];
      assert (a + b)[1..] == a[1..] + b;
      WithoutAppend(a[1..], b, c);
    }
  }

  lemma {:induction false} WithoutAbsent(s: string, c: char)
    requires c !in s
    ensures Without(s, c) == s
  {
    if s != [] {
      WithoutAbsent(s[1..], c);
    }
  }

  // ---------------------------------------------------------------------------
  // Decimal digits, int() and str()

  predicate IsDigit(c: char) {
    '0' <= c <= '9'
  }

  predicate AllDigits(s: string) {
    forall i :: 0 <= i < |s| ==> IsDigit(s[i])
  }

  /** The value of a non-empty run of ASCII decimal digits. */
  function DigitsValue(s: string): nat
    requires AllDigits(s)
  {
    if s == [] then 0 else 10 * DigitsValue(s[..|s| - 1]) + ((s[|s| - 1] as int) - ('0' as int))
  }

  /** `str(n)` for a natural number: decimal, no leading zeros. */
  function NatToDigits(n: nat): (s: string)
    ensures s != [] && AllDigits(s)
  {
    var d := ['0' + ((n % 10) as char)];
    if n < 10 then d else NatToDigits(n / 10) + d
  }

  /** `str(n)` reads back as `n`, and has no leading zero. */
  lemma {:induction false} NatToDigitsValue(n: nat)
    ensures DigitsValue(NatToDigits(n)) == n
    ensures |NatToDigits(n)| > 1 ==> NatToDigits(n)[0] != '0'
  {
    if n >= 10 {
      NatToDigitsValue(n / 10);
      var a, s := NatToDigits(n / 10), NatToDigits(n);
      assert s[..|s| - 1] == a;
    }
  }

  /** Text `int()` accepts, in the form the scripts hand it over: an optional
      leading `-` followed by one or more ASCII digits. */
  predicate IsIntLiteral(s: string) {
    if |s| > 0 && s[0] == '-' then |s| > 1 && AllDigits(s[1..]) else |s| > 0 && AllDigits(s)
  }

  /** `int(s)` on a stripped string, or `None` where `int()` raises `ValueError`. */
  function ParseInt(s: string): (r: Option<int>)
    ensures r.Some? <==> IsIntLiteral(s)
  {
    if |s| > 0 && s[0] == '-' then
      if |s| > 1 && AllDigits(s[1..]) then var v: int := DigitsValue(s[1..]); Some(-v) else None
    else if |s| > 0 && AllDigits(s) then Some(DigitsValue(s))
    else None
  }

  // ---------------------------------------------------------------------------
  // f"{n:,}"

  /** Digits with a `,` inserted between every group of three, counted from the right. */
  function GroupThousands(ds: string): (r: string)
    requires AllDigits(ds)
  {
    if |ds| <= 3 then ds else GroupThousands(ds[..|ds| - 3]) + "," + ds[|ds| - 3..]
  }

  /** Grouped digits hold only digits and separators, and begin and end
      with a digit. */
  lemma {:induction false} GroupThousandsShape(ds: string)
    requires AllDigits(ds)
    ensures var r := GroupThousands(ds);
            (forall i :: 0 <= i < |r| ==> IsDigit(r[i]) || r[i] == ',')
            && (ds != [] ==> r != [] && IsDigit(r[0]) && IsDigit(r[|r| - 1]))
  {
    if |ds| > 3 {
      var hi, lo := ds[..|ds| - 3], ds[|ds| - 3..];
      GroupThousandsShape(hi);
      var gh := GroupThousands(hi);
      assert GroupThousands(ds) == gh + "," + lo;
    }
  }

  /** `f"{n:,}"`: decimal with a `,` thousands separator and a leading `-` when negative. */
  function FormatThousands(n: int): (r: string)
  {
    var m: nat := if n < 0 then -n else n;
    (if n < 0 then "-" else "") + GroupThousands(NatToDigits(m))
  }

  lemma DigitsHaveNoSign(s: string, c: char)
    requires AllDigits(s) && !IsDigit(c)
    ensures c !in s
  {
    assert forall i :: 0 <= i < |s| ==> s[i] != c;
  }

  /** Deleting the separators from grouped digits gives the digits back. */
  lemma {:induction false} GroupThousandsUngroups(ds: string)
    requires AllDigits(ds)
    ensures Without(GroupThousands(ds), ',') == ds
  {
    if |ds| <= 3 {
      DigitsHaveNoSign(ds, ',');
      WithoutAbsent(ds, ',');
    } else {
      var hi, lo := ds[..|ds| - 3], ds[|ds| - 3..];
      var gh := GroupThousands(hi);
      assert GroupThousands(ds) == gh + ("," + lo);
      DigitsHaveNoSign(lo, ',');
      calc {
        Without(gh + ("," + lo), ',');
        { WithoutAppend(gh, "," + lo, ','); }
        Without(gh, ',') + Without("," + lo, ',');
        { GroupThousandsUngroups(hi); WithoutAppend(",", lo, ','); }
        hi + (Without(",", ',') + Without(lo, ','));
        { assert Without(",", ',') == []; WithoutAbsent(lo, ','); }
        hi + lo;
      }
      assert hi + lo == ds;
    }
  }

  /** The sign and the digits of `n`: `f"{n:,}"` without its separators. */
  function SignedDigits(n: int): (u: string)
    ensures IsIntLiteral(u) && IsStripped(u) && '+' !in u
  {
    var m: nat := if n < 0 then -n else n;
    var ds := NatToDigits(m);
    DigitsHaveNoSign(ds, '+');
    if n < 0 then
      assert ("-" + ds)[1..] == ds;
      "-" + ds
    else
      ds
  }

  lemma FormatThousandsUngroups(n: int)
    ensures Without(FormatThousands(n), ',') == SignedDigits(n)
  {
    var m: nat := if n < 0 then -n else n;
    var ds := NatToDigits(m);
    GroupThousandsUngroups(ds);
    var sign := if n < 0 then "-" else "";
    WithoutAppend(sign, GroupThousands(ds), ',');
    assert Without(sign, ',') == sign;
  }

  lemma SignedDigitsParses(n: int)
    ensures ParseInt(SignedDigits(n)) == Some(n)
  {
    var u := SignedDigits(n);
    if n < 0 {
      NatToDigitsValue(-n);
      assert u[1..] == NatToDigits(-n);
    } else {
      NatToDigitsValue(n);
    }
  }

  /** Removing the separators and every `+` from `f"{n:,}"`, stripping, and
      parsing gives `n` back, negative numbers included. */
  lemma FormatThousandsParses(n: int)
    ensures ParseInt(Strip(Without(Without(FormatThousands(n), ','), '+'))) == Some(n)
  {
    var u := SignedDigits(n);
    FormatThousandsUngroups(n);
    WithoutAbsent(u, '+');
    StripStripped(u);
    SignedDigitsParses(n);
  }

  // ---------------------------------------------------------------------------
  // Python's ordering of str

  /** Python's `a < b` on `str`: lexicographic by code point, a proper prefix
      coming first. (Dafny's own `<` on sequences means "proper prefix".) */
  predicate LexLess(a: string, b: string)
    decreases |a|
  {
    if a == [] then b != []
    else if b == [] then false
    else if a[0] != b[0] then a[0] < b[0]
    else LexLess(a[1..], b[1..])
  }

  predicate LexLessEq(a: string, b: string) {
    a == b || LexLess(a, b)
  }

  lemma {:induction false} LexLessIrreflexive(a: string)
    ensures !LexLess(a, a)
  {
    if a != [] {
      LexLessIrreflexive(a[1..]);
    }
  }

  lemma {:induction false} LexLessTransitive(a: string, b: string, c: string)
    requires LexLess(a, b) && LexLess(b, c)
    ensures LexLess(a, c)
    decreases |a|
  {
    if a != [] && a[0] == b[0] && b[0] == c[0] {
      LexLessTransitive(a[1..], b[1..], c[1..]);
    }
  }

  /** Any two different strings are ordered one way or the other, so `max()`
      of a non-empty collection of strings is well defined. */
  lemma {:induction false} LexLessTotal(a: string, b: string)
    requires a != b
    ensures LexLess(a, b) || LexLess(b, a)
    decreases |a|
  {
    if a != [] && b != [] && a[0] == b[0] {
      assert a == [a[0]] + a[1..] && b == [b[0]] + b[1..];
      LexLessTotal(a[1..], b[1..]);
    }
  }

  lemma LexLessEqTransitive(a: string, b: string, c: string)
    requires LexLessEq(a, b) && LexLessEq(b, c)
    ensures LexLessEq(a, c)
  {
    if a != b && b != c {
      LexLessTransitive(a, b, c);
    }
  }

  lemma LexLessEqAntisymmetric(a: string, b: string)
    requires LexLessEq(a, b) && LexLessEq(b, a)
    ensures a == b
  {
    if a != b {
      LexLessTransitive(a, b, a);
      LexLessIrreflexive(a);
    }
  }
}
