/** The names of launcher groups: decimal numbering, the least unused name, and the folder number
    read back from a name. */
module GroupIds {
  import opened Arithmetic
  import opened Lists

  // ---------- decimal numbers ----------

  function Digit(d: nat): char
    requires d < 10
  {
    "0123456789"[d]
  }

  function Decimal(n: nat): string {
    if n < 10 then [Digit(n)] else Decimal(n / 10) + [Digit(n % 10)]
  }

  lemma {:induction false} DecimalInjective(m: nat, n: nat)
    requires Decimal(m) == Decimal(n)
    ensures m == n
  {
    DecimalLength(m);
    DecimalLength(n);
    var a, b := Decimal(m), Decimal(n);
    assert a[|a| - 1] == Digit(m % 10) && b[|b| - 1] == Digit(n % 10);
    if m >= 10 && n >= 10 {
      assert a[..|a| - 1] == Decimal(m / 10) && b[..|b| - 1] == Decimal(n / 10);
      DecimalInjective(m / 10, n / 10);
    }
  }

  lemma {:induction false} DecimalLength(n: nat)
    ensures |Decimal(n)| >= 1
    ensures |Decimal(n)| == 1 <==> n < 10
  {
    if n >= 10 { DecimalLength(n / 10); }
  }

  // ---------- fresh names ----------

  function GroupName(n: nat): string {
    "internal/group/" + Decimal(n)
  }

  lemma GroupNameInjective(m: nat, n: nat)
    requires GroupName(m) == GroupName(n)
    ensures m == n
  {
    assert GroupName(m)[15..] == Decimal(m) && GroupName(n)[15..] == Decimal(n);
    DecimalInjective(m, n);
  }

  /** Probes the numbers from n on; `bound` only serves termination. */
  function FirstUnused(known: seq<string>, n: nat, bound: nat): (r: nat)
    requires n <= bound
    ensures n <= r <= bound
    ensures forall k | n <= k < r :: GroupName(k) in known
    ensures r < bound ==> GroupName(r) !in known
    decreases bound - n
  {
    if n == bound || GroupName(n) !in known then n else FirstUnused(known, n + 1, bound)
  }

  function FreshNumber(known: seq<string>): nat {
    FirstUnused(known, 0, |known|)
  }

  function NamesBelow(m: nat): set<string> {
    if m == 0 then {} else NamesBelow(m - 1) + {GroupName(m - 1)}
  }

  lemma {:induction false} NotBelow(m: nat, n: nat)
    requires m <= n
    ensures GroupName(n) !in NamesBelow(m)
  {
    if m > 0 {
      NotBelow(m - 1, n);
      if GroupName(n) == GroupName(m - 1) { GroupNameInjective(n, m - 1); }
    }
  }

  lemma {:induction false} NamesBelowCount(m: nat)
    ensures |NamesBelow(m)| == m
  {
    if m > 0 {
      NamesBelowCount(m - 1);
      NotBelow(m - 1, m - 1);
    }
  }

  lemma {:induction false} NamesBelowUsed(known: seq<string>, m: nat)
    requires forall k | 0 <= k < m :: GroupName(k) in known
    ensures NamesBelow(m) <= set x | x in known
  {
    if m > 0 { NamesBelowUsed(known, m - 1); }
  }

  lemma {:induction false} SetOfSeq(s: seq<string>)
    ensures |set x | x in s| <= |s|
  {
    if s != [] {
      SetOfSeq(s[1..]);
      assert (set x | x in s) == {s[0]} + (set x | x in s[1..]);
    }
  }

  /** Pigeonhole: a list of names uses up at most as many numbers as it is long. */
  lemma UsedNumbers(known: seq<string>, m: nat)
    requires forall k | 0 <= k < m :: GroupName(k) in known
    ensures m <= |known|
  {
    var used := set x | x in known;
    NamesBelowCount(m);
    NamesBelowUsed(known, m);
    SubsetCount(NamesBelow(m), used);
    SetOfSeq(known);
  }

  /** The fresh number is the least one whose name is unused, and it is found within |known| + 1 probes. */
  lemma FreshNumberMeaning(known: seq<string>)
    ensures FreshNumber(known) <= |known|
    ensures GroupName(FreshNumber(known)) !in known
    ensures forall k | 0 <= k < FreshNumber(known) :: GroupName(k) in known
  {
    var n := FreshNumber(known);
    if GroupName(n) in known {
      assert n == |known|;
      forall k | 0 <= k < n + 1 ensures GroupName(k) in known {
      }
      UsedNumbers(known, n + 1);
    }
  }

  lemma FreshNumberUnique(known: seq<string>, n: nat)
    requires GroupName(n) !in known && forall k | 0 <= k < n :: GroupName(k) in known
    ensures n == FreshNumber(known)
  {
    FreshNumberMeaning(known);
  }

  // ---------- the folder number in a name ----------

  predicate IsDigit(c: char) {
    '0' <= c <= '9'
  }

  function Unsigned(s: string): Option<nat> {
    if s == [] || !IsDigit(s[|s| - 1]) then None
    else if |s| == 1 then Some(s[0] as int - '0' as int)
    else match Unsigned(s[..|s| - 1])
         case None => None
         case Some(n) => Some(10 * n + (s[|s| - 1] as int - '0' as int))
  }

  /** QStringView::toInt: an optional sign, digits only, the value of a 32-bit int; 0 otherwise. */
  function ToInt(s: string): int {
    var magnitude := Unsigned(if s != [] && (s[0] == '-' || s[0] == '+') then s[1..] else s);
    if magnitude.None? then 0
    else
      var m: int := magnitude.value;
      var n := if s[0] == '-' then -m else m;
      if -0x8000_0000 <= n <= 0x7fff_ffff then n else 0
  }

  const FOLDER_PREFIX := "internal/folder/"

  function FolderName(n: nat): string {
    FOLDER_PREFIX + Decimal(n)
  }

  /** Skips one character more than the prefix has. */
  function ParseGroupId(id: string): int {
    if |id| <= |FOLDER_PREFIX| + 1 then 0 else ToInt(id[|FOLDER_PREFIX| + 1..])
  }

  lemma {:induction false} UnsignedDecimal(n: nat)
    ensures Unsigned(Decimal(n)) == Some(n)
    ensures IsDigit(Decimal(n)[0])
  {
    DecimalLength(n);
    if n >= 10 {
      UnsignedDecimal(n / 10);
      assert Decimal(n)[..|Decimal(n)| - 1] == Decimal(n / 10);
    }
  }

  /** The value of a number's digits without the first one is smaller than the number. */
  lemma {:induction false} TailSmaller(n: nat)
    requires n >= 10
    ensures Unsigned(Decimal(n)[1..]).Some? && Unsigned(Decimal(n)[1..]).value < n
    ensures IsDigit(Decimal(n)[1])
  {
    var s := Decimal(n);
    DecimalLength(n);
    DecimalLength(n / 10);
    UnsignedDecimal(n / 10);
    assert s == Decimal(n / 10) + [Digit(n % 10)];
    if n / 10 < 10 {
      assert s[1..] == [Digit(n % 10)];
    } else {
      TailSmaller(n / 10);
      assert s[1..][..|s| - 2] == Decimal(n / 10)[1..];
    }
  }

  /** The folder number survives the trip through the name only for folder 0. */
  lemma ParseGroupIdIff(n: nat)
    ensures ParseGroupId(FolderName(n)) == n <==> n == 0
  {
    DecimalLength(n);
    if n >= 10 {
      var rest := FolderName(n)[|FOLDER_PREFIX| + 1..];
      assert rest == Decimal(n)[1..];
      TailSmaller(n);
      assert IsDigit(rest[0]);
    }
  }

  // ---------- the folder number read from the name of a group that the manager made ----------

  function Pow10(k: nat): (r: nat)
    ensures r >= 1
  {
    if k == 0 then 1 else 10 * Pow10(k - 1)
  }

  lemma RemainderByDigit(n: nat, p: nat)
    requires p >= 1
    ensures n % (10 * p) == 10 * (n / 10 % p) + n % 10
  {
    var q := n / 10;
    var k, m := q / p, q % p;
    assert q == k * p + m;
    assert n == k * (10 * p) + (10 * m + n % 10);
    RemainderIs(n, 10 * p, k, 10 * m + n % 10);
  }

  /** The last digits of a number are its remainder. */
  lemma {:induction false} DigitsFrom(n: nat, c: nat)
    requires c < |Decimal(n)|
    ensures Unsigned(Decimal(n)[c..]) == Some(n % Pow10(|Decimal(n)| - c)) && IsDigit(Decimal(n)[c])
  {
    var s := Decimal(n);
    DecimalLength(n);
    if n < 10 {
      assert s[c..] == s;
    } else {
      var d := Digit(n % 10);
      assert s == Decimal(n / 10) + [d];
      if c == |s| - 1 {
        assert s[c..] == [d] && Pow10(1) == 10;
      } else {
        DigitsFrom(n / 10, c);
        DigitsBeforeLast(n, c);
      }
    }
  }

  lemma DigitsBeforeLast(n: nat, c: nat)
    requires n >= 10 && c < |Decimal(n / 10)|
    requires Unsigned(Decimal(n / 10)[c..]) == Some(n / 10 % Pow10(|Decimal(n / 10)| - c))
    ensures Unsigned(Decimal(n)[c..]) == Some(n % Pow10(|Decimal(n)| - c))
  {
    var s := Decimal(n / 10);
    var p := Pow10(|s| - c);
    OneDigitMore(s, Digit(n % 10), c, n / 10 % p);
    RemainderByDigit(n, p);
    assert Decimal(n) == s + [Digit(n % 10)];
    assert Pow10(|s| + 1 - c) == 10 * p;
  }

  lemma OneDigitMore(s: string, d: char, c: nat, m: nat)
    requires c < |s| && Unsigned(s[c..]) == Some(m) && IsDigit(d)
    ensures Unsigned((s + [d])[c..]) == Some(10 * m + (d as int - '0' as int))
  {
    assert (s + [d])[c..] == s[c..] + [d];
  }

  lemma HundredHasThreeDigits(n: nat)
    ensures |Decimal(n)| > 2 <==> n >= 100
  {
    DecimalLength(n);
    if n >= 10 { DecimalLength(n / 10); }
  }

  /** The number formed by the digits behind the first two. */
  function Tail(n: nat): nat
    requires n >= 100
  {
    HundredHasThreeDigits(n);
    n % Pow10(|Decimal(n)| - 2)
  }

  /** parseGroupId reads the digits behind the first two of a number that assignGroupId chose. */
  lemma MadeGroupFolderId(n: nat)
    ensures ParseGroupId(GroupName(n)) ==
              if n < 100 then 0 else if Tail(n) <= 0x7fff_ffff then Tail(n) else 0
  {
    HundredHasThreeDigits(n);
    if n >= 100 {
      assert GroupName(n)[17..] == Decimal(n)[2..];
      DigitsFrom(n, 2);
    }
  }

  /** So a made folder counts as the top level exactly when its number is below 100, or the digits behind
      the first two are all zeros or exceed an int. */
  lemma MadeGroupIsTopLevelIff(n: nat)
    ensures ParseGroupId(GroupName(n)) == 0 <==> n < 100 || Tail(n) == 0 || Tail(n) > 0x7fff_ffff
  {
    MadeGroupFolderId(n);
  }

  /** Folder 1 is taken for folder 0, and "0-1" for -1, which stands for "not found". */
  lemma MisreadNames()
    ensures ParseGroupId("internal/folder/1") == 0 && ParseGroupId("internal/folder/0-1") == -1
  {
    var id := "internal/folder/0-1";
    assert id[17..] == "-1" && "-1"[1..] == "1";
    assert Unsigned("1") == Some(1);
  }
}
