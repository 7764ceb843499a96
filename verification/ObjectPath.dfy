/** D-Bus object-path escaping by repeated replacement over the whole string, and its reverse. */
module ObjectPath {
  import opened Lists

  predicate IsAlnum(c: char) {
    'a' <= c <= 'z' || 'A' <= c <= 'Z' || '0' <= c <= '9'
  }

  /** The characters whose Latin-1 code has two hexadecimal digits and no sign. */
  predicate InRange(c: char) {
    0x10 <= c as int <= 0x7f
  }

  ghost predicate AllInRange(s: string) {
    forall i | 0 <= i < |s| :: InRange(s[i])
  }

  function Hex(d: int): char
    requires 0 <= d < 16
  {
    "0123456789abcdef"[d]
  }

  /** QString::number(code, 16): no leading zero. */
  function Number16(code: nat): string {
    if code < 16 then [Hex(code)] else Number16(code / 16) + [Hex(code % 16)]
  }

  /** The code that toLatin1 and the cast to an unsigned int give: 0 outside Latin-1, and the upper
      half is sign-extended. */
  function Latin1Code(c: char): nat {
    var n := c as int;
    if n < 0x80 then n else if n < 0x100 then 0xffff_ff00 + n else 0
  }

  function Escaped(c: char): string {
    "_" + Number16(Latin1Code(c))
  }

  /** QString::replace of one character by a string. */
  function ReplaceChar(s: string, c: char, after: string): string {
    if s == "" then "" else (if s[0] == c then after else [s[0]]) + ReplaceChar(s[1..], c, after)
  }

  /** One replacement per special character of the original, in its order, repeated ones included. */
  function ReplaceEach(ret: string, matches: string): string
    decreases matches
  {
    if matches == "" then ret
    else ReplaceEach(ReplaceChar(ret, matches[0], Escaped(matches[0])), matches[1..])
  }

  function Special(): char -> bool {
    c => !IsAlnum(c)
  }

  function Escape(s: string): string {
    if s == "" then "_" else ReplaceEach(s, Filter(s, Special()))
  }

  /** What escaping is meant to be: each special character on its own. */
  function PerCharacter(s: string): string {
    if s == "" then "" else (if IsAlnum(s[0]) then [s[0]] else Escaped(s[0])) + PerCharacter(s[1..])
  }

  // ---------- the methods ----------

  method EscapeToObjectPath(str: string) returns (ret: string)
    ensures ret == Escape(str)
  {
    if str == "" { return "_"; }
    ret := str;
    var matches := Filter(str, Special());
    var i := 0;
    assert matches[0..] == matches;
    while i < |matches|
      invariant 0 <= i <= |matches|
      invariant ReplaceEach(ret, matches[i..]) == Escape(str)
    {
      assert matches[i..][1..] == matches[i + 1..];
      ret := ReplaceChar(ret, matches[i], Escaped(matches[i]));
      i := i + 1;
    }
  }

  /** QString::replace of a three-character pattern by one character, from left to right. */
  function ReplacePattern(s: string, pattern: string, after: char): string
    requires |pattern| == 3
  {
    if |s| < 3 then s
    else if s[..3] == pattern then [after] + ReplacePattern(s[3..], pattern, after)
    else [s[0]] + ReplacePattern(s[1..], pattern, after)
  }

  function HexValue(c: char): Option<nat> {
    if '0' <= c <= '9' then Some(c as int - '0' as int)
    else if 'a' <= c <= 'f' then Some(c as int - 'a' as int + 10)
    else if 'A' <= c <= 'F' then Some(c as int - 'A' as int + 10)
    else None
  }

  /** QChar::isSpace: the control characters among the blanks, and all that Unicode calls separators. */
  predicate IsBlank(c: char) {
    var n := c as int;
    || 9 <= n <= 13 || n == 0x20 || n == 0x85 || n == 0xa0 || n == 0x1680 || 0x2000 <= n <= 0x200a
    || n == 0x2028 || n == 0x2029 || n == 0x202f || n == 0x205f || n == 0x3000
  }

  /** toUInt of two characters in base 16, which also reads one digit beside a blank or behind a plus sign
      and gives 0 when they are no number; then fromLatin1. */
  function Decoded(hex: string): char
    requires |hex| == 2
  {
    match (HexValue(hex[0]), HexValue(hex[1]))
    case (Some(a), Some(b)) => (16 * a + b) as char
    case (None, Some(b)) => if hex[0] == '+' || IsBlank(hex[0]) then b as char else 0 as char
    case (Some(a), None) => if IsBlank(hex[1]) then a as char else 0 as char
    case (None, None) => 0 as char
  }

  /** Scans what is left of the escaped string, replacing in ret. */
  function Scan(rest: string, ret: string): string {
    if rest == "" then ret
    else if rest[0] == '_' && |rest| > 2 then
      Scan(rest[3..], ReplacePattern(ret, rest[..3], Decoded(rest[1..3])))
    else Scan(rest[1..], ret)
  }

  function Unescape(str: string): string {
    Scan(str, str)
  }

  method UnescapeFromObjectPath(str: string) returns (ret: string)
    ensures ret == Unescape(str)
  {
    ret := str;
    var i := 0;
    assert str[0..] == str;
    while i < |str|
      invariant 0 <= i <= |str|
      invariant Scan(str[i..], ret) == Unescape(str)
    {
      if str[i] == '_' && i + 2 < |str| {
        var hexStr := str[i + 1..i + 3];
        assert hexStr == str[i..][1..3] && str[i..][3..] == str[i + 3..];
        assert "_" + hexStr == str[i..i + 3] == str[i..][..3];
        ret := ReplacePattern(ret, "_" + hexStr, Decoded(hexStr));
        i := i + 2;
      } else {
        assert str[i..][1..] == str[i + 1..];
      }
      i := i + 1;
    }
  }

  // ---------- one escape ----------

  predicate IsSpecial(c: char) {
    InRange(c) && !IsAlnum(c)
  }

  /** Two digits, both alphanumeric, that give the character back. */
  lemma EscapeShape(c: char)
    requires InRange(c)
    ensures |Escaped(c)| == 3 && Escaped(c)[0] == '_' && IsAlnum(Escaped(c)[1]) && IsAlnum(Escaped(c)[2])
    ensures Decoded(Escaped(c)[1..3]) == c
  {
    var n := c as int;
    assert Latin1Code(c) == n && n / 16 < 16;
    assert Number16(n / 16) == [Hex(n / 16)];
    assert Escaped(c) == ['_', Hex(n / 16), Hex(n % 16)];
    HexDigit(n / 16);
    HexDigit(n % 16);
    assert Escaped(c)[1..3] == [Hex(n / 16), Hex(n % 16)];
  }

  lemma HexDigit(d: int)
    requires 0 <= d < 16
    ensures IsAlnum(Hex(d)) && HexValue(Hex(d)) == Some(d)
  {
  }

  lemma EscapesDiffer(c: char, d: char)
    requires InRange(c) && InRange(d) && c != d
    ensures Escaped(c) != Escaped(d)
  {
    EscapeShape(c);
    EscapeShape(d);
  }

  lemma Underscore()
    ensures Escaped('_') == "_5f" && IsSpecial('_')
  {
    EscapeShape('_');
    assert Number16(0x5f) == [Hex(5)] + [Hex(15)];
  }

  /** Outside 0x10 .. 0x7f an escape has one digit below, eight up to 0xff, and is that of 0 beyond. */
  lemma EscapedElsewhere(c: char)
    ensures var n := c as int;
            && (n < 0x10 ==> Escaped(c) == ['_', Hex(n)])
            && (0x80 <= n < 0x100 ==> Escaped(c) == "_ffffff" + [Hex(n / 16), Hex(n % 16)])
            && (n >= 0x100 ==> Escaped(c) == "_0")
  {
    if 0x80 <= c as int < 0x100 { HighNumber(c as int); }
  }

  lemma HighNumber(n: nat)
    requires 0x80 <= n < 0x100
    ensures Number16(0xffff_ff00 + n) == "ffffff" + [Hex(n / 16), Hex(n % 16)]
  {
    SixDigits();
    Digits16(0xff_ffff, n / 16, "ffffff");
    Digits16(0xfff_fff0 + n / 16, n % 16, "ffffff" + [Hex(n / 16)]);
    assert 16 * (0xfff_fff0 + n / 16) + n % 16 == 0xffff_ff00 + n;
  }

  lemma SixDigits()
    ensures Number16(0xff_ffff) == "ffffff"
  {
    assert Number16(0xf) == "f";
    Digits16(0xf, 0xf, "f");
    Digits16(0xff, 0xf, "ff");
    Digits16(0xfff, 0xf, "fff");
    Digits16(0xffff, 0xf, "ffff");
    Digits16(0xf_ffff, 0xf, "fffff");
  }

  lemma Digits16(high: nat, low: nat, digits: string)
    requires 0 < high && low < 16 && Number16(high) == digits
    ensures Number16(16 * high + low) == digits + [Hex(low)]
  {
    assert (16 * high + low) / 16 == high && (16 * high + low) % 16 == low;
  }

  /** Two hexadecimal digits, in either case, are read as such. */
  lemma DecodedDigits(d: nat, e: nat)
    requires d < 16 && e < 16
    ensures forall x, y | x in [Hex(d), Upper(d)] && y in [Hex(e), Upper(e)] :: Decoded([x, y]) == (16 * d + e) as char
  {
    HexDigit(d);
    HexDigit(e);
    assert HexValue(Upper(d)) == Some(d) && HexValue(Upper(e)) == Some(e);
  }

  function Upper(d: int): char
    requires 0 <= d < 16
  {
    "0123456789ABCDEF"[d]
  }

  // ---------- the strings between the original and its escaped form ----------

  /** An underscore that was escaped n times. */
  function Under(n: nat): string {
    if n == 0 then "_" else Under(n - 1) + "5f"
  }

  function Shown(c: char, n: nat, kinds: set<char>): string {
    if c == '_' then Under(n) else if IsAlnum(c) || c !in kinds then [c] else Escaped(c)
  }

  /** Underscores escaped n times, and the other special characters if they are in `kinds`. */
  function Render(s: string, n: nat, kinds: set<char>): string {
    if s == "" then "" else Shown(s[0], n, kinds) + Render(s[1..], n, kinds)
  }

  /** '_' and then alphanumeric characters only. */
  lemma UnderShape(n: nat)
    ensures |Under(n)| == 1 + 2 * n && Under(n)[0] == '_'
    ensures forall i | 0 < i < |Under(n)| :: IsAlnum(Under(n)[i])
    ensures n > 0 ==> Under(n) == "_5f" + Under(n - 1)[1..]
  {
    if n > 0 { UnderShape(n - 1); }
  }

  lemma {:induction false} ReplaceCharConcat(a: string, b: string, c: char, after: string)
    ensures ReplaceChar(a + b, c, after) == ReplaceChar(a, c, after) + ReplaceChar(b, c, after)
  {
    if a == "" {
      assert a + b == b;
    } else {
      assert (a + b)[1..] == a[1..] + b;
      ReplaceCharConcat(a[1..], b, c, after);
    }
  }

  lemma {:induction false} NothingToReplace(s: string, c: char, after: string)
    requires c !in s
    ensures ReplaceChar(s, c, after) == s
  {
    if s != "" { NothingToReplace(s[1..], c, after); }
  }

  lemma ReplaceOne(c: char, after: string)
    ensures ReplaceChar([c], c, after) == after
  {
    assert [c][1..] == "";
  }

  lemma ReplaceUnder(n: nat)
    ensures ReplaceChar(Under(n), '_', Escaped('_')) == Under(n + 1)
  {
    UnderShape(n);
    Underscore();
    var tail := Under(n)[1..];
    assert Under(n) == ['_'] + tail;
    calc {
      ReplaceChar(Under(n), '_', Escaped('_'));
      { ReplaceCharConcat(['_'], tail, '_', Escaped('_')); }
      ReplaceChar(['_'], '_', Escaped('_')) + ReplaceChar(tail, '_', Escaped('_'));
      { ReplaceOne('_', Escaped('_')); NothingToReplace(tail, '_', Escaped('_')); }
      "_5f" + tail;
      { UnderShape(n + 1); }
      Under(n + 1);
    }
  }

  lemma ShownWithout(d: char, n: nat, kinds: set<char>, c: char)
    requires InRange(d) && IsSpecial(c) && (d == '_' ==> c != '_') && (d == c ==> c in kinds)
    requires c == '_' ==> kinds <= {'_'}
    ensures c !in Shown(d, n, kinds)
  {
    EscapeShape(d);
    UnderShape(n);
  }

  /** Replacing one kind in what stands for one character. */
  lemma ReplaceShown(d: char, n: nat, kinds: set<char>, c: char)
    requires InRange(d) && IsSpecial(c) && (c == '_' ==> kinds <= {'_'})
    ensures ReplaceChar(Shown(d, n, kinds), c, Escaped(c))
         == Shown(d, if c == '_' then n + 1 else n, kinds + {c})
  {
    if d == '_' && c == '_' {
      ReplaceUnder(n);
    } else if d == c && c !in kinds {
      ReplaceOne(c, Escaped(c));
    } else {
      ShownWithout(d, n, kinds, c);
      NothingToReplace(Shown(d, n, kinds), c, Escaped(c));
    }
  }

  lemma {:induction false} ReplaceKind(s: string, n: nat, kinds: set<char>, c: char)
    requires AllInRange(s) && IsSpecial(c) && (c == '_' ==> kinds <= {'_'})
    ensures ReplaceChar(Render(s, n, kinds), c, Escaped(c))
         == Render(s, if c == '_' then n + 1 else n, kinds + {c})
  {
    if s != "" {
      ReplaceKind(s[1..], n, kinds, c);
      ReplaceCharConcat(Shown(s[0], n, kinds), Render(s[1..], n, kinds), c, Escaped(c));
      ReplaceShown(s[0], n, kinds, c);
    }
  }

  lemma {:induction false} RenderNone(s: string)
    ensures Render(s, 0, {}) == s
  {
    if s != "" { RenderNone(s[1..]); }
  }

  /** Enough kinds render every special character as its escape. */
  lemma {:induction false} RenderAll(s: string, n: nat, kinds: set<char>)
    requires forall c | c in s && !IsAlnum(c) :: c in kinds
    requires '_' in s ==> n == 1
    ensures Render(s, n, kinds) == PerCharacter(s)
  {
    if s != "" {
      RenderAll(s[1..], n, kinds);
      if s[0] == '_' {
        Underscore();
        UnderShape(1);
      }
    }
  }

  lemma {:induction false} RenderGrows(s: string, m: nat, n: nat, kinds: set<char>)
    requires m < n
    ensures |Render(s, m, kinds)| <= |Render(s, n, kinds)|
    ensures '_' in s ==> |Render(s, m, kinds)| < |Render(s, n, kinds)|
  {
    if s != "" {
      RenderGrows(s[1..], m, n, kinds);
      UnderShape(m);
      UnderShape(n);
    }
  }

  // ---------- escaping when the underscores come first ----------

  /** No underscore stands behind another special character. */
  ghost predicate UnderscoresLead(s: string) {
    forall i, j | 0 <= j < i < |s| && s[i] == '_' :: s[j] == '_' || IsAlnum(s[j])
  }

  lemma LeadStep(s: string)
    requires s != ""
    ensures UnderscoresLead(s) <==>
            UnderscoresLead(s[1..]) && (s[0] == '_' || IsAlnum(s[0]) || '_' !in s[1..])
  {
    var rest := s[1..];
    assert forall i | 0 <= i < |rest| :: rest[i] == s[i + 1];
    if UnderscoresLead(rest) && (s[0] == '_' || IsAlnum(s[0]) || '_' !in rest) {
      forall i, j | 0 <= j < i < |s| && s[i] == '_' ensures s[j] == '_' || IsAlnum(s[j]) {
        assert rest[i - 1] == '_';
        if j > 0 { assert rest[j - 1] == s[j]; }
      }
    }
    if UnderscoresLead(s) {
      forall i, j | 0 <= j < i < |rest| && rest[i] == '_' ensures rest[j] == '_' || IsAlnum(rest[j]) {
        assert s[i + 1] == '_' && s[j + 1] == rest[j];
      }
      if k :| 0 <= k < |rest| && rest[k] == '_' {
        assert s[k + 1] == '_';
      }
    }
  }

  /** The matches are the special characters, with the underscores in the same place among them. */
  lemma {:induction false} MatchesOf(s: string)
    requires AllInRange(s)
    ensures var matches := Filter(s, Special());
            && (forall c :: c in matches <==> c in s && !IsAlnum(c))
            && (forall c | c in matches :: IsSpecial(c))
            && (UnderscoresLead(matches) <==> UnderscoresLead(s))
            && Count(matches, '_') == Count(s, '_')
  {
    if s != "" {
      MatchesOf(s[1..]);
      assert s == [s[0]] + s[1..];
      LeadStep(s);
      var rest := Filter(s[1..], Special());
      if !IsAlnum(s[0]) {
        var matches := Filter(s, Special());
        assert matches == [s[0]] + rest && matches[1..] == rest;
        LeadStep(matches);
      }
    }
  }

  lemma {:induction false} ReplaceEachKind(s: string, n: nat, kinds: set<char>, matches: string)
    requires AllInRange(s) && UnderscoresLead(matches) && ('_' in matches ==> kinds <= {'_'})
    requires forall c | c in matches :: IsSpecial(c)
    ensures ReplaceEach(Render(s, n, kinds), matches)
         == Render(s, n + Count(matches, '_'), kinds + set c | c in matches)
    decreases matches
  {
    var all := kinds + set c | c in matches;
    if matches == "" {
      assert all == kinds;
    } else {
      var c := matches[0];
      LeadStep(matches);
      ReplaceKind(s, n, kinds, c);
      ReplaceEachKind(s, if c == '_' then n + 1 else n, kinds + {c}, matches[1..]);
      assert all == kinds + {c} + set x | x in matches[1..];
    }
  }

  ghost function SpecialsIn(s: string): set<char> {
    set c | c in s && !IsAlnum(c)
  }

  /** Each of n underscores is escaped n times. */
  lemma EscapeLeading(s: string)
    requires s != "" && AllInRange(s) && UnderscoresLead(s)
    ensures Escape(s) == Render(s, Count(s, '_'), SpecialsIn(s))
  {
    MatchesOf(s);
    SpecialsMatched(s);
    RenderedOnce(s, Filter(s, Special()));
  }

  lemma RenderedOnce(s: string, matches: string)
    requires AllInRange(s) && UnderscoresLead(matches) && forall c | c in matches :: IsSpecial(c)
    requires Count(matches, '_') == Count(s, '_') && (set c | c in matches) == SpecialsIn(s)
    ensures ReplaceEach(s, matches) == Render(s, Count(s, '_'), SpecialsIn(s))
  {
    RenderNone(s);
    ReplaceEachKind(s, 0, {}, matches);
    assert {} + SpecialsIn(s) == SpecialsIn(s);
  }

  lemma SpecialsMatched(s: string)
    ensures (set c | c in Filter(s, Special())) == SpecialsIn(s)
  {
    forall c ensures c in Filter(s, Special()) <==> c in s && !IsAlnum(c) {
      FilterMember(s, Special(), c);
    }
  }

  // ---------- escaping when an underscore stands behind another special character ----------

  /** Every underscore starts two digits, and never those of c. */
  predicate NeverNames(s: string, c: char) {
    if s == "" then true
    else if s[0] == '_' then
      |s| > 2 && IsAlnum(s[1]) && IsAlnum(s[2]) && Decoded(s[1..3]) != c && NeverNames(s[3..], c)
    else NeverNames(s[1..], c)
  }

  lemma NeverNamesEscape(d: char, rest: string, c: char)
    requires IsSpecial(d)
    ensures NeverNames(Escaped(d) + rest, c) <==> d != c && NeverNames(rest, c)
  {
    EscapeShape(d);
    var t := Escaped(d) + rest;
    assert t[1..3] == Escaped(d)[1..3] && t[3..] == rest;
  }

  lemma NeverNamesPlain(d: char, rest: string, c: char)
    requires d != '_'
    ensures NeverNames([d] + rest, c) <==> NeverNames(rest, c)
  {
    assert ([d] + rest)[1..] == rest;
  }

  lemma {:induction false} NeverNamesNested(s: string, c: char)
    requires c != '_'
    ensures NeverNames(ReplaceChar(s, '_', Escaped('_')), c)
  {
    if s != "" {
      NeverNamesNested(s[1..], c);
      var rest := ReplaceChar(s[1..], '_', Escaped('_'));
      Underscore();
      if s[0] == '_' { NeverNamesEscape('_', rest, c); } else { NeverNamesPlain(s[0], rest, c); }
    }
  }

  lemma {:induction false} NeverNamesKept(s: string, d: char, c: char)
    requires NeverNames(s, c) && IsSpecial(d) && d != '_' && d != c
    ensures NeverNames(ReplaceChar(s, d, Escaped(d)), c)
  {
    if s != "" && s[0] == '_' {
      NeverNamesKept(s[3..], d, c);
      var rest := ReplaceChar(s[3..], d, Escaped(d));
      assert s == s[..3] + s[3..];
      ReplaceCharConcat(s[..3], s[3..], d, Escaped(d));
      NothingToReplace(s[..3], d, Escaped(d));
      assert (s[..3] + rest)[1..3] == s[1..3] && (s[..3] + rest)[3..] == rest;
    } else if s != "" {
      NeverNamesKept(s[1..], d, c);
      var rest := ReplaceChar(s[1..], d, Escaped(d));
      if s[0] == d { NeverNamesEscape(d, rest, c); } else { NeverNamesPlain(s[0], rest, c); }
    }
  }

  lemma {:induction false} NotIntroduced(s: string, d: char, c: char)
    requires IsSpecial(d) && IsSpecial(c) && c != '_' && (c in s ==> d == c)
    ensures c !in ReplaceChar(s, d, Escaped(d))
  {
    if s != "" {
      NotIntroduced(s[1..], d, c);
      EscapeShape(d);
      assert s[0] in s;
    }
  }

  /** Once c is gone and an underscore is still to be replaced, no escape names c in the end. */
  lemma {:induction false} NeverNamesLater(ret: string, matches: string, c: char)
    requires IsSpecial(c) && c != '_' && c !in ret
    requires forall d | d in matches :: IsSpecial(d)
    requires '_' in matches || NeverNames(ret, c)
    ensures NeverNames(ReplaceEach(ret, matches), c) && c !in ReplaceEach(ret, matches)
    decreases matches
  {
    if matches != "" {
      var d := matches[0];
      var next := ReplaceChar(ret, d, Escaped(d));
      assert matches == [d] + matches[1..];
      NotIntroduced(ret, d, c);
      if d == '_' {
        NeverNamesNested(ret, c);
      } else if d == c {
        NothingToReplace(ret, c, Escaped(c));
      } else if NeverNames(ret, c) {
        NeverNamesKept(ret, d, c);
      }
      NeverNamesLater(next, matches[1..], c);
    }
  }

  /** Some special character ends up without an escape of its own. */
  lemma {:induction false} LostKind(ret: string, matches: string) returns (c: char)
    requires !UnderscoresLead(matches) && forall d | d in matches :: IsSpecial(d)
    ensures c in matches && IsSpecial(c) && c != '_'
    ensures NeverNames(ReplaceEach(ret, matches), c) && c !in ReplaceEach(ret, matches)
    decreases matches
  {
    LeadStep(matches);
    var d := matches[0];
    var next := ReplaceChar(ret, d, Escaped(d));
    assert matches == [d] + matches[1..] && IsSpecial(d);
    if d != '_' && '_' in matches[1..] {
      NotIntroduced(ret, d, d);
      NeverNamesLater(next, matches[1..], d);
      c := d;
    } else {
      c := LostKind(next, matches[1..]);
    }
  }

  lemma EscapeLoses(s: string) returns (c: char)
    requires AllInRange(s) && !UnderscoresLead(s)
    ensures c in s && IsSpecial(c) && c != '_' && NeverNames(Escape(s), c) && c !in Escape(s)
  {
    MatchesOf(s);
    c := LostKind(s, Filter(s, Special()));
  }

  lemma {:induction false} PerCharacterNames(s: string, c: char)
    requires AllInRange(s) && c in s && IsSpecial(c)
    ensures !NeverNames(PerCharacter(s), c)
  {
    var rest := PerCharacter(s[1..]);
    if s[0] != c { PerCharacterNames(s[1..], c); }
    if IsAlnum(s[0]) { NeverNamesPlain(s[0], rest, c); } else { NeverNamesEscape(s[0], rest, c); }
  }

  /** The sequential replacements are per-character escaping exactly when there is at most one
      underscore and it stands before every other special character. */
  lemma EscapeIsPerCharacterIff(s: string)
    requires s != "" && AllInRange(s)
    ensures Escape(s) == PerCharacter(s) <==> UnderscoresLead(s) && Count(s, '_') <= 1
  {
    if !UnderscoresLead(s) {
      var c := EscapeLoses(s);
      PerCharacterNames(s, c);
    } else {
      EscapeLeading(s);
      CountPositive(s, '_');
      RenderedPerCharacterIff(s, Count(s, '_'), SpecialsIn(s));
    }
  }

  lemma RenderedPerCharacterIff(s: string, n: nat, kinds: set<char>)
    requires n > 0 <==> '_' in s
    requires forall c | c in s && !IsAlnum(c) :: c in kinds
    ensures Render(s, n, kinds) == PerCharacter(s) <==> n <= 1
  {
    if n == 0 {
      RenderAll(s, 0, kinds);
    } else {
      RenderAll(s, 1, kinds);
      if n > 1 { RenderGrows(s, 1, n, kinds); }
    }
  }

  /** In particular, it is for every string without an underscore. */
  lemma EscapeIsPerCharacter(s: string)
    requires s != "" && AllInRange(s) && '_' !in s
    ensures Escape(s) == PerCharacter(s)
  {
    CountPositive(s, '_');
    EscapeIsPerCharacterIff(s);
  }

  // ---------- unescaping ----------

  lemma {:induction false} ScanPlain(a: string, b: string, ret: string)
    requires '_' !in a
    ensures Scan(a + b, ret) == Scan(b, ret)
  {
    if a == "" {
      assert a + b == b;
    } else {
      assert (a + b)[1..] == a[1..] + b;
      ScanPlain(a[1..], b, ret);
    }
  }

  lemma ScanEscape(c: char, b: string, ret: string)
    requires InRange(c) && |Escaped(c)| == 3
    ensures Scan(Escaped(c) + b, ret) == Scan(b, ReplacePattern(ret, Escaped(c), c))
  {
    EscapeShape(c);
    var t := Escaped(c) + b;
    assert t[..3] == Escaped(c) && t[1..3] == Escaped(c)[1..3] && t[3..] == b;
  }

  /** A character that is no underscore starts no match. */
  lemma MatchNotHere(d: char, rest: string, pattern: string, after: char)
    requires |pattern| == 3 && ([d] + rest)[..if |rest| < 2 then 0 else 3] != pattern
    ensures ReplacePattern([d] + rest, pattern, after) == [d] + ReplacePattern(rest, pattern, after)
  {
    assert ([d] + rest)[1..] == rest;
  }

  lemma {:induction false} MatchNotIn(a: string, rest: string, pattern: string, after: char)
    requires |pattern| == 3 && pattern[0] == '_' && '_' !in a
    ensures ReplacePattern(a + rest, pattern, after) == a + ReplacePattern(rest, pattern, after)
  {
    if a == "" {
      assert a + rest == rest;
    } else {
      assert a + rest == [a[0]] + (a[1..] + rest);
      MatchNotIn(a[1..], rest, pattern, after);
      MatchNotHere(a[0], a[1..] + rest, pattern, after);
    }
  }

  /** '_' with two digits of its own is passed over. */
  lemma OtherMatch(e: string, rest: string, pattern: string, after: char)
    requires |pattern| == 3 && pattern[0] == '_' && |e| >= 3 && e[..3] != pattern && '_' !in e[1..]
    ensures ReplacePattern(e + rest, pattern, after) == e + ReplacePattern(rest, pattern, after)
  {
    assert e + rest == [e[0]] + (e[1..] + rest) && (e + rest)[..3] == e[..3];
    MatchNotHere(e[0], e[1..] + rest, pattern, after);
    MatchNotIn(e[1..], rest, pattern, after);
  }

  lemma MatchHere(pattern: string, rest: string, after: char)
    requires |pattern| == 3
    ensures ReplacePattern(pattern + rest, pattern, after) == [after] + ReplacePattern(rest, pattern, after)
  {
    assert (pattern + rest)[..3] == pattern && (pattern + rest)[3..] == rest;
  }

  /** Decoding '_' takes one escape off every underscore. */
  lemma {:induction false} UnnestUnderscores(s: string, n: nat, kinds: set<char>)
    requires AllInRange(s) && forall c | c in s && !IsAlnum(c) :: c in kinds
    ensures ReplacePattern(Render(s, n + 1, kinds), "_5f", '_') == Render(s, n, kinds)
  {
    if s != "" {
      UnnestUnderscores(s[1..], n, kinds);
      var rest := Render(s[1..], n + 1, kinds);
      if s[0] == '_' {
        UnnestOne(n, rest);
      } else if IsAlnum(s[0]) {
        MatchNotIn([s[0]], rest, "_5f", '_');
      } else {
        assert s[0] in s;
        UnnestOther(s[0], rest);
      }
    }
  }

  lemma UnnestOne(n: nat, rest: string)
    ensures ReplacePattern(Under(n + 1) + rest, "_5f", '_') == Under(n) + ReplacePattern(rest, "_5f", '_')
  {
    UnderShape(n + 1);
    UnderShape(n);
    var tail := Under(n)[1..];
    assert Under(n) == ['_'] + tail;
    UnnestTail("_5f", tail, rest);
  }

  lemma UnnestTail(p: string, tail: string, rest: string)
    requires |p| == 3 && p[0] == '_' && '_' !in tail
    ensures ReplacePattern((p + tail) + rest, p, '_') == (['_'] + tail) + ReplacePattern(rest, p, '_')
  {
    assert (p + tail) + rest == p + (tail + rest);
    MatchHere(p, tail + rest, '_');
    MatchNotIn(tail, rest, p, '_');
  }

  lemma UnnestOther(c: char, rest: string)
    requires IsSpecial(c) && c != '_'
    ensures ReplacePattern(Escaped(c) + rest, "_5f", '_') == Escaped(c) + ReplacePattern(rest, "_5f", '_')
  {
    EscapeShape(c);
    Underscore();
    EscapesDiffer(c, '_');
    OtherMatch(Escaped(c), rest, "_5f", '_');
  }

  /** Two alphanumeric characters at the front stand for themselves. */
  lemma RenderFront(t: string, kinds: set<char>)
    requires AllInRange(t)
    ensures var r := Render(t, 0, kinds);
            |r| >= 2 && IsAlnum(r[0]) && IsAlnum(r[1]) ==> |t| >= 2 && t[0] == r[0] && t[1] == r[1]
  {
    if t != "" {
      FrontStep(t, kinds);
      if |t| >= 2 { FrontStep(t[1..], kinds); }
    }
  }

  lemma FrontStep(t: string, kinds: set<char>)
    requires AllInRange(t) && t != ""
    ensures var r := Render(t, 0, kinds);
            r != "" && (IsAlnum(r[0]) ==> t[0] == r[0] && r[1..] == Render(t[1..], 0, kinds))
  {
    EscapeShape(t[0]);
  }

  /** Decoding another kind also decodes what merely looks like its escape. */
  lemma {:induction false} DecodeKind(t: string, kinds: set<char>, c: char)
    requires AllInRange(t) && IsSpecial(c) && c != '_' && |Escaped(c)| == 3
    ensures ReplacePattern(Render(t, 0, kinds), Escaped(c), c)
         == Render(ReplacePattern(t, Escaped(c), c), 0, kinds - {c})
  {
    EscapeShape(c);
    var p := Escaped(c);
    if t != "" {
      if |t| >= 3 && t[..3] == p {
        var rest := t[3..];
        DecodeKind(rest, kinds, c);
        assert t == p + rest;
        RenderLiteral(c, rest, kinds);
        MatchHere(p, Render(rest, 0, kinds), c);
        MatchHere(p, rest, c);
        var u := ReplacePattern(rest, p, c);
        assert ([c] + u)[1..] == u;
      } else {
        DecodeKind(t[1..], kinds, c);
        DecodeFirst(t, kinds, c);
        assert t == [t[0]] + t[1..];
        var u := ReplacePattern(t[1..], p, c);
        assert ([t[0]] + u)[1..] == u;
      }
    }
  }

  /** An escape in the original string stands for its three characters. */
  lemma RenderLiteral(c: char, rest: string, kinds: set<char>)
    requires InRange(c)
    ensures Render(Escaped(c) + rest, 0, kinds) == Escaped(c) + Render(rest, 0, kinds)
  {
    EscapeShape(c);
    RenderUnchanged(Escaped(c), rest, kinds);
  }

  lemma {:induction false} RenderUnchanged(a: string, rest: string, kinds: set<char>)
    requires forall c | c in a :: c == '_' || IsAlnum(c)
    ensures Render(a + rest, 0, kinds) == a + Render(rest, 0, kinds)
  {
    if a == "" {
      assert a + rest == rest;
    } else {
      RenderUnchanged(a[1..], rest, kinds);
      calc {
        Render(a + rest, 0, kinds);
        { assert a + rest == [a[0]] + (a[1..] + rest); RenderPlain(a[0], a[1..] + rest, kinds); }
        [a[0]] + (a[1..] + Render(rest, 0, kinds));
        { Associative([a[0]], a[1..], Render(rest, 0, kinds)); }
        ([a[0]] + a[1..]) + Render(rest, 0, kinds);
        { assert [a[0]] + a[1..] == a; }
        a + Render(rest, 0, kinds);
      }
    }
  }

  lemma RenderPlain(d: char, rest: string, kinds: set<char>)
    requires d == '_' || IsAlnum(d)
    ensures Render([d] + rest, 0, kinds) == [d] + Render(rest, 0, kinds)
  {
    assert ([d] + rest)[1..] == rest;
  }

  lemma FrontNoMatch(t: string, kinds: set<char>, p: string)
    requires AllInRange(t) && |p| == 3 && p[0] == '_' && IsAlnum(p[1]) && IsAlnum(p[2])
    requires t != "" && t[0] == '_' && !(|t| >= 3 && t[..3] == p)
    ensures var r := Render(t, 0, kinds); |r| >= 3 ==> r[..3] != p
  {
    var r, u := Render(t, 0, kinds), t[1..];
    RenderFront(u, kinds);
    assert r == "_" + Render(u, 0, kinds);
    if |u| >= 2 {
      assert t[1] == u[0] && t[2] == u[1];
    }
  }

  /** The rendering begins with a match only where the string or its first character gives it one. */
  lemma DecodeFirst(t: string, kinds: set<char>, c: char)
    requires AllInRange(t) && IsSpecial(c) && c != '_' && |Escaped(c)| == 3
    requires t != "" && !(|t| >= 3 && t[..3] == Escaped(c))
    ensures ReplacePattern(Render(t, 0, kinds), Escaped(c), c)
         == Shown(t[0], 0, kinds - {c}) + ReplacePattern(Render(t[1..], 0, kinds), Escaped(c), c)
  {
    EscapeShape(c);
    var p, rest := Escaped(c), Render(t[1..], 0, kinds);
    if t[0] == '_' {
      assert Render(t, 0, kinds) == "_" + rest;
      FrontNoMatch(t, kinds, p);
      MatchNotHere('_', rest, p, c);
    } else if IsAlnum(t[0]) || t[0] !in kinds {
      MatchNotIn([t[0]], rest, p, c);
    } else if t[0] == c {
      MatchHere(p, rest, c);
    } else {
      OtherEscape(t[0], rest, c);
    }
  }

  lemma OtherEscape(d: char, rest: string, c: char)
    requires InRange(d) && InRange(c) && d != c && |Escaped(c)| == 3
    ensures ReplacePattern(Escaped(d) + rest, Escaped(c), c) == Escaped(d) + ReplacePattern(rest, Escaped(c), c)
  {
    EscapeShape(c);
    EscapeShape(d);
    EscapesDiffer(d, c);
    OtherMatch(Escaped(d), rest, Escaped(c), c);
  }

  /** Decodes, kind after kind, what looks like an escape in the original string itself. */
  function ReplaceBack(t: string, matches: string): string
    requires forall c | c in matches :: |Escaped(c)| == 3
    decreases matches
  {
    if matches == "" then t else ReplaceBack(ReplacePattern(t, Escaped(matches[0]), matches[0]), matches[1..])
  }

  lemma {:induction false} ReplacePatternInRange(t: string, pattern: string, after: char)
    requires AllInRange(t) && |pattern| == 3 && InRange(after)
    ensures AllInRange(ReplacePattern(t, pattern, after))
  {
    if |t| >= 3 {
      ReplacePatternInRange(t[1..], pattern, after);
      ReplacePatternInRange(t[3..], pattern, after);
    }
  }

  /** Behind the last underscore of the original, the scan decodes one kind after another. */
  lemma {:induction false} ScanKinds(rest: string, t: string, kinds: set<char>)
    requires AllInRange(rest) && '_' !in rest && AllInRange(t)
    requires forall c | c in Filter(rest, Special()) :: |Escaped(c)| == 3
    ensures Scan(PerCharacter(rest), Render(t, 0, kinds))
         == Render(ReplaceBack(t, Filter(rest, Special())), 0, kinds - SpecialsIn(rest))
  {
    if rest == "" {
      assert kinds - SpecialsIn(rest) == kinds;
    } else {
      var c, tail := rest[0], PerCharacter(rest[1..]);
      assert rest == [c] + rest[1..];
      if IsAlnum(c) {
        ScanPlain([c], tail, Render(t, 0, kinds));
        ScanKinds(rest[1..], t, kinds);
        assert SpecialsIn(rest) == SpecialsIn(rest[1..]);
      } else {
        ScanKind(rest, t, kinds);
        var u := ReplacePattern(t, Escaped(c), c);
        ReplacePatternInRange(t, Escaped(c), c);
        ScanKinds(rest[1..], u, kinds - {c});
        assert kinds - {c} - SpecialsIn(rest[1..]) == kinds - SpecialsIn(rest);
      }
    }
  }

  lemma ScanKind(rest: string, t: string, kinds: set<char>)
    requires rest != "" && IsSpecial(rest[0]) && rest[0] != '_' && |Escaped(rest[0])| == 3 && AllInRange(t)
    ensures Filter(rest, Special()) == [rest[0]] + Filter(rest[1..], Special())
    ensures Scan(PerCharacter(rest), Render(t, 0, kinds))
         == Scan(PerCharacter(rest[1..]), Render(ReplacePattern(t, Escaped(rest[0]), rest[0]), 0, kinds - {rest[0]}))
  {
    ScanEscape(rest[0], PerCharacter(rest[1..]), Render(t, 0, kinds));
    DecodeKind(t, kinds, rest[0]);
  }

  lemma ScanUnder(n: nat, tail: string, s: string, m: nat)
    requires AllInRange(s) && n > 0 && m > 0
    ensures Scan(Under(n) + tail, Render(s, m, SpecialsIn(s)))
         == Scan(tail, Render(s, m - 1, SpecialsIn(s)))
  {
    UnderShape(n);
    UnderShape(n - 1);
    Underscore();
    var behind := Under(n - 1)[1..];
    assert Under(n) + tail == Escaped('_') + (behind + tail);
    ScanEscape('_', behind + tail, Render(s, m, SpecialsIn(s)));
    UnnestUnderscores(s, m - 1, SpecialsIn(s));
    ScanPlain(behind, tail, Render(s, m - 1, SpecialsIn(s)));
  }

  /** The scan of one more character while there are underscores ahead. */
  lemma ScanFirst(rest: string, s: string, n: nat)
    requires AllInRange(s) && '_' in rest && n > 0 && (rest[0] == '_' || IsAlnum(rest[0]))
    ensures Scan(Render(rest, n, SpecialsIn(s)), Render(s, Count(rest, '_'), SpecialsIn(s)))
         == Scan(Render(rest[1..], n, SpecialsIn(s)), Render(s, Count(rest[1..], '_'), SpecialsIn(s)))
  {
    var tail, m := Render(rest[1..], n, SpecialsIn(s)), Count(rest, '_');
    CountPositive(rest, '_');
    if rest[0] == '_' {
      ScanUnder(n, tail, s, m);
    } else {
      ScanPlain([rest[0]], tail, Render(s, m, SpecialsIn(s)));
    }
  }

  /** Up to there, each underscore of the original takes one escape off all of them. */
  lemma {:induction false} ScanUnderscores(rest: string, s: string, n: nat)
    requires AllInRange(rest) && UnderscoresLead(rest) && (n > 0 || '_' !in rest)
    requires AllInRange(s) && forall c | c in rest && !IsAlnum(c) :: c in s
    ensures Scan(Render(rest, n, SpecialsIn(s)), Render(s, Count(rest, '_'), SpecialsIn(s)))
         == Scan(PerCharacter(Behind(rest)), Render(s, 0, SpecialsIn(s)))
  {
    CountPositive(rest, '_');
    if '_' in rest {
      LeadStep(rest);
      ScanFirst(rest, s, n);
      ScanUnderscores(rest[1..], s, n);
    } else {
      RenderAll(rest, n, SpecialsIn(s));
    }
  }

  /** The part behind the last underscore. */
  function Behind(s: string): string {
    if '_' in s then Behind(s[1..]) else s
  }

  lemma {:induction false} BehindMatches(s: string)
    requires AllInRange(s) && UnderscoresLead(s)
    ensures var r := Behind(s);
            && AllInRange(r) && '_' !in r
            && (forall c :: c in r && !IsAlnum(c) <==> c in s && !IsAlnum(c) && c != '_')
  {
    if '_' in s {
      LeadStep(s);
      assert s == [s[0]] + s[1..];
      BehindMatches(s[1..]);
    }
  }

  // ---------- the round trip ----------

  lemma EscapesAreTriples(matches: string)
    requires forall c | c in matches :: IsSpecial(c)
    ensures forall c | c in matches :: |Escaped(c)| == 3
  {
    forall c | c in matches ensures |Escaped(c)| == 3 {
      EscapeShape(c);
    }
  }

  lemma {:induction false} RenderPlainly(s: string, kinds: set<char>)
    requires kinds <= {'_'}
    ensures Render(s, 0, kinds) == s
  {
    if s != "" { RenderPlainly(s[1..], kinds); }
  }

  /** What comes back when the underscores come first: the original, with everything in it decoded
      that looks like the escape of one of its other special characters. */
  lemma UnescapeLeading(s: string) returns (others: string)
    requires s != "" && AllInRange(s) && UnderscoresLead(s)
    ensures forall c :: c in others <==> c in s && !IsAlnum(c) && c != '_'
    ensures forall c | c in others :: |Escaped(c)| == 3
    ensures Unescape(Escape(s)) == ReplaceBack(s, others)
  {
    var rest, kinds := Behind(s), SpecialsIn(s);
    others := Filter(rest, Special());
    BehindMatches(s);
    MatchesOf(rest);
    EscapesAreTriples(others);
    EscapeLeading(s);
    CountPositive(s, '_');
    ScanUnderscores(s, s, Count(s, '_'));
    ScanKinds(rest, s, kinds);
    RenderPlainly(ReplaceBack(s, others), kinds - SpecialsIn(rest));
  }

  ghost predicate Occurs(s: string, pattern: string) {
    exists i :: 0 <= i <= |s| && pattern <= s[i..]
  }

  lemma OccursStep(s: string, pattern: string)
    requires pattern != ""
    ensures Occurs(s, pattern) <==> s != "" && (pattern <= s || Occurs(s[1..], pattern))
  {
    if s != "" {
      assert s[0..] == s;
      forall i | 0 < i <= |s| ensures s[i..] == s[1..][i - 1..] {
      }
      if Occurs(s[1..], pattern) {
        var i :| 0 <= i <= |s[1..]| && pattern <= s[1..][i..];
        assert pattern <= s[i + 1..];
      }
    }
  }

  lemma OccursMember(s: string, pattern: string)
    requires pattern != ""
    ensures Occurs(s, pattern) ==> pattern[0] in s && |pattern| <= |s|
  {
    if i :| 0 <= i <= |s| && pattern <= s[i..] {
      assert s[i] == pattern[0];
    }
  }

  /** Replacing a pattern by one character shortens a string or leaves it as it is. */
  lemma {:induction false} ReplacePatternLength(s: string, pattern: string, after: char)
    requires |pattern| == 3
    ensures var r := ReplacePattern(s, pattern, after);
            if Occurs(s, pattern) then |r| < |s| else r == s
  {
    if s != "" {
      OccursStep(s, pattern);
      if |s| >= 3 && s[..3] == pattern {
        assert pattern <= s;
        ReplacePatternLength(s[3..], pattern, after);
      } else {
        ReplacePatternLength(s[1..], pattern, after);
        OccursMember(s[1..], pattern);
      }
    } else {
      OccursStep(s, pattern);
    }
  }

  lemma {:induction false} ReplaceBackLength(s: string, others: string)
    requires forall c | c in others :: |Escaped(c)| == 3
    ensures var r := ReplaceBack(s, others);
            if exists c :: c in others && Occurs(s, Escaped(c)) then |r| < |s| else r == s
    decreases others
  {
    if others != "" {
      var c := others[0];
      var next := ReplacePattern(s, Escaped(c), c);
      assert others == [c] + others[1..];
      ReplacePatternLength(s, Escaped(c), c);
      ReplaceBackLength(next, others[1..]);
    }
  }

  lemma {:induction false} StaysAbsent(s: string, pattern: string, after: char, c: char)
    requires c !in s && |pattern| == 3 && after != c
    ensures c !in ReplacePattern(s, pattern, after)
  {
    if |s| >= 3 {
      StaysAbsent(s[1..], pattern, after, c);
      StaysAbsent(s[3..], pattern, after, c);
      assert s[0] in s;
    }
  }

  /** A character that no escape names does not come back. */
  lemma {:induction false} ScanNeverNames(rest: string, ret: string, c: char)
    requires NeverNames(rest, c) && c !in ret
    ensures c !in Scan(rest, ret)
  {
    if rest != "" {
      if rest[0] == '_' {
        StaysAbsent(ret, rest[..3], Decoded(rest[1..3]), c);
        ScanNeverNames(rest[3..], ReplacePattern(ret, rest[..3], Decoded(rest[1..3])), c);
      } else {
        ScanNeverNames(rest[1..], ret, c);
      }
    }
  }

  /** No special character but the underscore has its own escape standing in the string. */
  ghost predicate SpellsNoEscape(s: string) {
    forall c | c in s && !IsAlnum(c) && c != '_' :: !Occurs(s, Escaped(c))
  }

  /** Unescaping recovers the string exactly when it is not empty, no underscore stands behind another
      special character, and it does not spell out the escape of one of its own special characters. */
  lemma EscapeRoundTripIff(s: string)
    requires AllInRange(s)
    ensures Unescape(Escape(s)) == s <==> s != "" && UnderscoresLead(s) && SpellsNoEscape(s)
  {
    if s != "" && UnderscoresLead(s) {
      var others := UnescapeLeading(s);
      ReplaceBackLength(s, others);
    } else if s != "" {
      var c := EscapeLoses(s);
      ScanNeverNames(Escape(s), Escape(s), c);
      assert c !in Unescape(Escape(s));
    } else {
      assert Escape(s) == "_" && "_"[1..] == "";
      assert Scan("_", "_") == "_";
    }
  }

  /** In particular, unescaping recovers every non-empty string without an underscore. */
  lemma EscapeRoundTrip(s: string)
    requires s != "" && AllInRange(s) && '_' !in s
    ensures Unescape(Escape(s)) == s
  {
    forall c | c in s && !IsAlnum(c) && c != '_' ensures !Occurs(s, Escaped(c)) {
      EscapeShape(c);
      OccursMember(s, Escaped(c));
    }
    EscapeRoundTripIff(s);
  }

  /** Both ways to lose it: an underscore behind '-', and the text "2d" between an underscore and '-'. */
  lemma RoundTripFails()
    ensures Unescape(Escape("-_")) != "-_" && Unescape(Escape("_2d-")) != "_2d-"
  {
    UnderscoreBehind("-_");
    SpellsEscape("_2d-");
  }

  lemma UnderscoreBehind(s: string)
    requires |s| == 2 && s[0] == '-' && s[1] == '_'
    ensures Unescape(Escape(s)) != s
  {
    assert !UnderscoresLead(s);
    EscapeRoundTripIff(s);
  }

  lemma SpellsEscape(s: string)
    requires |s| == 4 && s[..3] == "_2d" && s[3] == '-'
    ensures Unescape(Escape(s)) != s
  {
    assert Number16(0x2d) == [Hex(2)] + [Hex(13)];
    assert Escaped('-') == "_2d" && s[0..] == s;
    assert "_2d" <= s[0..];
    assert !SpellsNoEscape(s);
    EscapeRoundTripIff(s);
  }

  // ---------- one escape in other text ----------

  /** Text without an underscore is left alone, and a single escape in it is decoded where it stands. */
  lemma UnescapeOne(a: string, x: char, y: char, b: string)
    requires '_' !in a && '_' !in b && x != '_' && y != '_'
    ensures Unescape(a) == a
    ensures Unescape(a + (['_', x, y] + b)) == a + ([Decoded([x, y])] + b)
  {
    var pattern, d := ['_', x, y], Decoded([x, y]);
    var s := a + (pattern + b);
    ScanNone(a, a);
    calc {
      Unescape(s);
      { ScanPlain(a, pattern + b, s); }
      Scan(pattern + b, s);
      { ScanOne(x, y, b, s); }
      Scan(b, ReplacePattern(s, pattern, d));
      { ScanNone(b, ReplacePattern(s, pattern, d)); }
      ReplacePattern(s, pattern, d);
      { ReplacedOnce(a, pattern, b, d); }
      a + ([d] + b);
    }
  }

  lemma ScanNone(a: string, ret: string)
    requires '_' !in a
    ensures Scan(a, ret) == ret
  {
    assert a + "" == a;
    ScanPlain(a, "", ret);
  }

  lemma ScanOne(x: char, y: char, b: string, ret: string)
    ensures Scan(['_', x, y] + b, ret) == Scan(b, ReplacePattern(ret, ['_', x, y], Decoded([x, y])))
  {
    var rest := ['_', x, y] + b;
    assert rest[..3] == ['_', x, y] && rest[1..3] == [x, y] && rest[3..] == b;
  }

  lemma ReplacedOnce(a: string, pattern: string, b: string, d: char)
    requires '_' !in a && '_' !in b && |pattern| == 3 && pattern[0] == '_'
    ensures ReplacePattern(a + (pattern + b), pattern, d) == a + ([d] + b)
  {
    MatchNotIn(a, pattern + b, pattern, d);
    MatchHere(pattern, b, d);
    assert b + "" == b;
    MatchNotIn(b, "", pattern, d);
  }
}
