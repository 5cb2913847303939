/** Splitting, trimming, lower-casing and decimal conversion of MyCommon and MyCast. */
module Text {
  import opened Ordering
  import opened Sequences

  // ------------------------------------------------------------------------------------------
  // split

  /** find(delimiter), with the length of the string for npos. */
  function IndexOf(s: string, d: char): (i: nat)
    ensures i <= |s| && d !in s[..i] && (i < |s| ==> s[i] == d)
  {
    if s == "" || s[0] == d then 0
    else
      var i := 1 + IndexOf(s[1..], d);
      assert s[..i] == [s[0]] + s[1..][..i - 1];
      i
  }

  /** The non-empty pieces between delimiters. */
  function Tokens(s: string, d: char): seq<string>
    decreases |s|
  {
    var i := IndexOf(s, d);
    (if i == 0 then [] else [s[..i]]) + if i == |s| then [] else Tokens(s[i + 1..], d)
  }

  /** A string that split passes on as one token. */
  predicate IsWord(w: string, d: char) {
    w != "" && d !in w
  }

  lemma {:induction false} IndexUnique(s: string, d: char, i: nat)
    requires i <= |s| && d !in s[..i] && (i < |s| ==> s[i] == d)
    ensures IndexOf(s, d) == i
  {
    if i > 0 {
      assert s[..i][0] == s[0] && s[1..][..i - 1] == s[..i][1..];
      IndexUnique(s[1..], d, i - 1);
    }
  }

  lemma {:induction false} TokensAreWords(s: string, d: char)
    ensures forall w | w in Tokens(s, d) :: IsWord(w, d)
    decreases |s|
  {
    var i := IndexOf(s, d);
    if i < |s| {
      TokensAreWords(s[i + 1..], d);
    }
  }

  /** A delimiter separates: what is left of it and what is right of it are split on their own. */
  lemma {:induction false} TokensAppend(a: string, b: string, d: char)
    ensures Tokens(a + [d] + b, d) == Tokens(a, d) + Tokens(b, d)
    decreases |a|
  {
    var s, i := a + [d] + b, IndexOf(a, d);
    hide IndexOf;
    assert s[..i] == a[..i] && s[i] == d;
    IndexUnique(s, d, i);
    var head := if i == 0 then [] else [a[..i]];
    if i == |a| {
      assert s[i + 1..] == b;
      assert head + [] == head;
    } else {
      assert s[i + 1..] == a[i + 1..] + [d] + b;
      TokensAppend(a[i + 1..], b, d);
      PlusAssoc(head, Tokens(a[i + 1..], d), Tokens(b, d));
    }
  }

  lemma TokensOfWord(w: string, d: char)
    requires d !in w
    ensures Tokens(w, d) == if w == "" then [] else [w]
  {
    assert IndexOf(w, d) == |w|;
    assert w[..|w|] == w;
  }

  /** The first piece, unless it is empty, and the tokens behind the delimiter. */
  lemma TokensUnfold(s: string, d: char)
    ensures var i := IndexOf(s, d);
            Tokens(s, d) == (if i == 0 then [] else [s[..i]]) + if i == |s| then [] else Tokens(s[i + 1..], d)
  {
    hide IndexOf;
  }

  lemma WithFirst<T>(before: seq<T>, first: T, skip: bool, later: seq<T>)
    ensures before + ((if skip then [] else [first]) + later) == (if skip then before else before + [first]) + later
  {
    PlusAssoc(before, [first], later);
    assert [] + later == later;
  }

  lemma NextToken(before: seq<string>, s: string, d: char)
    ensures var i := IndexOf(s, d);
            before + Tokens(s, d) == (if i == 0 then before else before + [s[..i]])
                                     + if i == |s| then [] else Tokens(s[i + 1..], d)
  {
    hide Tokens, IndexOf;
    TokensUnfold(s, d);
    var i := IndexOf(s, d);
    WithFirst(before, s[..i], i == 0, if i == |s| then [] else Tokens(s[i + 1..], d));
  }

  /** split as the loop over `pos` and `last_pos` does it. */
  method Split(str: string, delimiter: char) returns (rv: seq<string>)
    ensures rv == Tokens(str, delimiter)
  {
    hide Tokens;
    rv := [];
    var lastPos := 0;
    assert str[0..] == str && [] + Tokens(str, delimiter) == Tokens(str, delimiter);
    var exit := false;
    while !exit
      invariant lastPos <= |str|
      invariant Tokens(str, delimiter) == rv + if exit then [] else Tokens(str[lastPos..], delimiter)
      decreases !exit, |str| - lastPos
    {
      var rest := str[lastPos..];
      NextToken(rv, rest, delimiter);
      var pos := IndexOf(rest, delimiter);
      var tmp := rest[..pos];
      if pos == |rest| {
        exit := true;
      } else {
        assert rest[pos + 1..] == str[lastPos + pos + 1..];
        lastPos := lastPos + pos + 1;
      }
      assert Tokens(str, delimiter) == (if tmp == "" then rv else rv + [tmp])
                                       + if exit then [] else Tokens(str[lastPos..], delimiter);
      if tmp == "" {
        continue;
      }
      rv := rv + [tmp];
    }
  }

  // ------------------------------------------------------------------------------------------
  // trim

  function TrimmedLeft(s: string, c: string): string
    requires c != ""
    decreases |s|
  {
    if c <= s then TrimmedLeft(s[|c|..], c) else s
  }

  predicate EndsWith(s: string, c: string) {
    |c| <= |s| && s[|s| - |c|..] == c
  }

  function TrimmedRight(s: string, c: string): string
    requires c != ""
    decreases |s|
  {
    if EndsWith(s, c) then TrimmedRight(s[..|s| - |c|], c) else s
  }

  function Trimmed(s: string, c: string): string
    requires c != ""
  {
    TrimmedRight(TrimmedLeft(s, c), c)
  }

  function Times(c: string, k: nat): string {
    if k == 0 then "" else c + Times(c, k - 1)
  }

  /** Copies of c are taken off the front until none is left there. */
  lemma {:induction false} TrimmedLeftMeaning(s: string, c: string) returns (k: nat)
    requires c != ""
    ensures s == Times(c, k) + TrimmedLeft(s, c) && !(c <= TrimmedLeft(s, c))
    decreases |s|
  {
    if c <= s {
      var n := TrimmedLeftMeaning(s[|c|..], c);
      k := n + 1;
      var times, t := Times(c, n), TrimmedLeft(s[|c|..], c);
      assert TrimmedLeft(s, c) == t && Times(c, k) == c + times;
      hide *;
      assert s == c + s[|c|..];
      PlusAssoc(c, times, t);
    } else {
      k := 0;
    }
  }

  lemma {:induction false} TimesSnoc(c: string, k: nat)
    ensures Times(c, k) + c == Times(c, k + 1)
  {
    if k == 0 {
      assert "" + c == c + "";
    } else {
      TimesSnoc(c, k - 1);
      PlusAssoc(c, Times(c, k - 1), c);
    }
  }

  /** Copies of c are taken off the end until none is left there. */
  lemma {:induction false} TrimmedRightMeaning(s: string, c: string) returns (k: nat)
    requires c != ""
    ensures s == TrimmedRight(s, c) + Times(c, k) && !EndsWith(TrimmedRight(s, c), c)
    decreases |s|
  {
    if EndsWith(s, c) {
      var n := TrimmedRightMeaning(s[..|s| - |c|], c);
      k := n + 1;
      var times, t := Times(c, n), TrimmedRight(s[..|s| - |c|], c);
      assert TrimmedRight(s, c) == t;
      TimesSnoc(c, n);
      assert s == s[..|s| - |c|] + c;
      hide *;
      PlusAssoc(t, times, c);
    } else {
      k := 0;
    }
  }

  /** Both: what is left neither begins nor ends with the pattern, and what went were copies of it. */
  lemma TrimmedMeaning(s: string, c: string) returns (k: nat, n: nat)
    requires c != ""
    ensures s == Times(c, k) + (Trimmed(s, c) + Times(c, n))
    ensures !(c <= Trimmed(s, c))
    ensures |c| <= |Trimmed(s, c)| ==> Trimmed(s, c)[|Trimmed(s, c)| - |c|..] != c
  {
    k := TrimmedLeftMeaning(s, c);
    var left := TrimmedLeft(s, c);
    n := TrimmedRightMeaning(left, c);
    var t := TrimmedRight(left, c);
    assert Trimmed(s, c) == t && t <= left;
    PrefixOfPrefix(c, t, left);
  }

  lemma PrefixOfPrefix<T>(a: seq<T>, b: seq<T>, c: seq<T>)
    ensures a <= b && b <= c ==> a <= c
  {
    if a <= b && b <= c {
      assert c[..|a|] == b[..|a|];
    }
  }

  method TrimLeft(str: string, c: string) returns (rv: string)
    requires c != ""
    ensures rv == TrimmedLeft(str, c)
  {
    rv := str;
    while c <= rv
      invariant TrimmedLeft(rv, c) == TrimmedLeft(str, c)
      decreases |rv|
    {
      rv := rv[|c|..];
    }
  }

  method TrimRight(str: string, c: string) returns (rv: string)
    requires c != ""
    ensures rv == TrimmedRight(str, c)
  {
    rv := str;
    while |c| <= |rv| && rv[|rv| - |c|..] == c
      invariant TrimmedRight(rv, c) == TrimmedRight(str, c)
      decreases |rv|
    {
      rv := rv[..|rv| - |c|];
    }
  }

  method Trim(str: string, c: string) returns (rv: string)
    requires c != ""
    ensures rv == Trimmed(str, c)
  {
    rv := TrimLeft(str, c);
    rv := TrimRight(rv, c);
  }

  // ------------------------------------------------------------------------------------------
  // lower

  predicate IsUpper(c: char) {
    'A' <= c <= 'Z'
  }

  predicate NoUpper(s: string) {
    forall c | c in s :: !IsUpper(c)
  }

  function LowerChar(c: char): (r: char)
    ensures !IsUpper(r)
  {
    if IsUpper(c) then c - 'A' + 'a' else c
  }

  function Lower(s: string): (r: string)
    ensures |r| == |s| && NoUpper(r)
    ensures forall i | 0 <= i < |s| :: r[i] == LowerChar(s[i])
  {
    if s == "" then "" else [LowerChar(s[0])] + Lower(s[1..])
  }

  /** The 26 capital letters move by 32; every other character stays. */
  lemma LowerIs(s: string, i: nat)
    requires i < |s|
    ensures |Lower(s)| == |s|
    ensures Lower(s)[i] as int == s[i] as int + if 65 <= s[i] as int <= 90 then 32 else 0
  {
  }

  lemma LowerKeeps(s: string)
    requires NoUpper(s)
    ensures Lower(s) == s
  {
    forall i | 0 <= i < |s|
      ensures Lower(s)[i] == s[i]
    {
      assert s[i] in s;
    }
  }

  // ------------------------------------------------------------------------------------------
  // Decimal numbers

  const U64: nat := 0x1_0000_0000_0000_0000

  predicate IsDigit(c: char) {
    '0' <= c <= '9'
  }

  function DigitChar(n: nat): (c: char)
    requires n < 10
    ensures IsDigit(c)
  {
    '0' + n as char
  }

  function DigitValue(c: char): (n: nat)
    requires IsDigit(c)
    ensures n < 10
  {
    (c - '0') as nat
  }

  lemma {:induction false} DigitsAre(n: nat)
    requires n < 10
    ensures DigitChar(n) == "0123456789"[n] && DigitValue("0123456789"[n]) == n
  {
    assert "0123456789"[0] == '0' && "0123456789"[1] == '1' && "0123456789"[2] == '2' && "0123456789"[3] == '3';
    assert "0123456789"[4] == '4' && "0123456789"[5] == '5' && "0123456789"[6] == '6' && "0123456789"[7] == '7';
    assert "0123456789"[8] == '8' && "0123456789"[9] == '9';
  }

  /** std::to_string */
  function ToDecimal(n: nat): (s: string)
    ensures s != "" && forall c | c in s :: IsDigit(c)
  {
    if n < 10 then [DigitChar(n)] else ToDecimal(n / 10) + [DigitChar(n % 10)]
  }

  function FromDecimal(s: string): nat
    requires forall c | c in s :: IsDigit(c)
  {
    if s == "" then 0
    else
      assert s[|s| - 1] in s;
      10 * FromDecimal(s[..|s| - 1]) + DigitValue(s[|s| - 1])
  }

  lemma {:induction false} FromToDecimal(n: nat)
    ensures FromDecimal(ToDecimal(n)) == n
  {
    var s := ToDecimal(n);
    if n < 10 {
      assert s[..0] == "" && DigitValue(DigitChar(n)) == n;
    } else {
      FromToDecimal(n / 10);
      assert s[..|s| - 1] == ToDecimal(n / 10) && DigitValue(DigitChar(n % 10)) == n % 10;
    }
  }

  /** Both to the base of ten, the last digit behind the others. */
  lemma DecimalDigits(n: nat, d: nat, s: string)
    requires d < 10 && forall c | c in s :: IsDigit(c)
    ensures ToDecimal(d) == ["0123456789"[d]]
    ensures n > 0 ==> ToDecimal(10 * n + d) == ToDecimal(n) + ["0123456789"[d]]
    ensures forall c | c in s + ["0123456789"[d]] :: IsDigit(c)
    ensures FromDecimal(s + ["0123456789"[d]]) == 10 * FromDecimal(s) + d && FromDecimal("") == 0
  {
    DigitsAre(d);
    assert IsDigit(DigitChar(d));
    var t := s + [DigitChar(d)];
    assert t[..|t| - 1] == s && t[|t| - 1] == DigitChar(d);
  }

  lemma ToDecimalInjective(m: nat, n: nat)
    requires ToDecimal(m) == ToDecimal(n)
    ensures m == n
  {
    FromToDecimal(m);
    FromToDecimal(n);
  }

  predicate IsSpace(c: char) {
    c == ' ' || c == '\t' || c == '\n' || c == '\r' || c == 11 as char || c == 12 as char
  }

  function SkipSpaces(s: string): string {
    if s != "" && IsSpace(s[0]) then SkipSpaces(s[1..]) else s
  }

  function LeadingDigits(s: string): (r: string)
    ensures r <= s && forall c | c in r :: IsDigit(c)
  {
    if s == "" || !IsDigit(s[0]) then "" else [s[0]] + LeadingDigits(s[1..])
  }

  /** std::stoull in base 10; None for either of its exceptions. A minus sign negates modulo 2^64. */
  function StoULL(s: string): Option<nat> {
    var t := SkipSpaces(s);
    var signed := t != "" && (t[0] == '-' || t[0] == '+');
    var digits := LeadingDigits(if signed then t[1..] else t);
    if digits == "" then None
    else
      var v := FromDecimal(digits);
      if v >= U64 then None
      else if signed && t[0] == '-' then Some((U64 - v) % U64)
      else Some(v)
  }

  /** strto of an unsigned type with the given largest value: 0 for whatever does not parse or does not fit. */
  function StrTo(s: string, max: nat): nat {
    match StoULL(s)
    case None => 0
    case Some(v) => if v > max then 0 else v
  }

  lemma {:induction false} LeadingDigitsAll(s: string)
    requires forall c | c in s :: IsDigit(c)
    ensures LeadingDigits(s) == s
  {
    if s != "" {
      assert s[0] in s;
      LeadingDigitsAll(s[1..]);
    }
  }

  lemma StrToDecimal(n: nat, max: nat)
    requires n <= max < U64
    ensures StrTo(ToDecimal(n), max) == n
  {
    var s := ToDecimal(n);
    assert s[0] in s;
    LeadingDigitsAll(s);
    FromToDecimal(n);
  }

  lemma {:induction false} SpacesSkipped(spaces: string, t: string)
    requires forall c | c in spaces :: IsSpace(c)
    requires t == "" || !IsSpace(t[0])
    ensures SkipSpaces(spaces + t) == t
  {
    if spaces == "" {
      assert spaces + t == t;
    } else {
      assert spaces[0] in spaces && (spaces + t)[1..] == spaces[1..] + t;
      SpacesSkipped(spaces[1..], t);
    }
  }

  lemma {:induction false} DigitsTaken(digits: string, rest: string)
    requires (forall c | c in digits :: IsDigit(c)) && (rest == "" || !IsDigit(rest[0]))
    ensures LeadingDigits(digits + rest) == digits
  {
    if digits == "" {
      assert digits + rest == rest;
    } else {
      assert digits[0] in digits && (digits + rest)[1..] == digits[1..] + rest;
      DigitsTaken(digits[1..], rest);
    }
  }

  /**
   What any text with a number in front parses to: leading blanks are skipped, one sign is taken, a minus negates
   modulo 2^64, and whatever follows the digits is ignored. A number of 2^64 or more, or a result that the type
   cannot hold, gives 0.
   */
  lemma StrToMeaning(spaces: string, sign: string, digits: string, rest: string, max: nat)
    requires forall c | c in spaces :: c as int == 32 || 9 <= c as int <= 13
    requires sign == "" || sign == "+" || sign == "-"
    requires digits != "" && (forall c | c in digits :: '0' <= c <= '9') && (rest == "" || !('0' <= rest[0] <= '9'))
    ensures StrTo(spaces + (sign + (digits + rest)), max) ==
            var v := FromDecimal(digits);
            var w := if sign == "-" then (0x1_0000_0000_0000_0000 - v) % 0x1_0000_0000_0000_0000 else v;
            if v >= 0x1_0000_0000_0000_0000 || w > max then 0 else w
  {
    var tail := digits + rest;
    hide FromDecimal, SkipSpaces, LeadingDigits, StoULL;
    assert digits[0] in digits && tail[0] == digits[0];
    FirstOf(sign, tail);
    SpacesSkipped(spaces, sign + tail);
    DigitsTaken(digits, rest);
    StoULLOf(spaces + (sign + tail), sign, tail, digits);
    assert forall c | c in digits :: IsDigit(c);
  }

  lemma FirstOf(sign: string, tail: string)
    requires tail != ""
    ensures (sign + tail)[0] == if sign == "" then tail[0] else sign[0]
  {
  }

  lemma StoULLOf(s: string, sign: string, tail: string, digits: string)
    requires SkipSpaces(s) == sign + tail && (sign == "" || sign == "+" || sign == "-")
    requires tail != "" && IsDigit(tail[0]) && LeadingDigits(tail) == digits != ""
    ensures forall c | c in digits :: IsDigit(c)
    ensures var v := FromDecimal(digits);
            StoULL(s) == if v >= U64 then None else Some(if sign == "-" then (U64 - v) % U64 else v)
  {
    hide FromDecimal, SkipSpaces, LeadingDigits;
    var t := sign + tail;
    assert sign != "" ==> t[1..] == tail && t[0] == sign[0];
    assert sign == "" ==> t == tail;
  }

  /** No digit behind the blanks and the sign: 0. */
  lemma StrToNothing(spaces: string, sign: string, rest: string, max: nat)
    requires forall c | c in spaces :: c as int == 32 || 9 <= c as int <= 13
    requires sign == "+" || sign == "-" ||
             (sign == "" && (rest == "" || !(rest[0] in "+-" || rest[0] as int == 32 || 9 <= rest[0] as int <= 13)))
    requires rest == "" || !('0' <= rest[0] <= '9')
    ensures StrTo(spaces + (sign + rest), max) == 0
  {
    var t := sign + rest;
    assert t == "" || t[0] == if sign == "" then rest[0] else sign[0];
    SpacesSkipped(spaces, t);
    DigitsTaken("", rest);
    assert sign == "" ==> t == rest;
    assert sign != "" ==> t[1..] == rest;
    assert "" + rest == rest && '+' in "+-" && '-' in "+-";
  }

  // ------------------------------------------------------------------------------------------
  // The order of std::string

  predicate LexLess(a: string, b: string) {
    b != "" && (a == "" || a[0] < b[0] || (a[0] == b[0] && LexLess(a[1..], b[1..])))
  }

  predicate EarlierAt(a: string, b: string, i: nat) {
    i <= |a| && i < |b| && a[..i] == b[..i] && (i == |a| || a[i] < b[i])
  }

  lemma EarlierBelow(a: string, b: string, i: nat)
    requires i > 0
    ensures EarlierAt(a, b, i) <==> a != "" && b != "" && a[0] == b[0] && EarlierAt(a[1..], b[1..], i - 1)
  {
    if i <= |a| && i < |b| {
      assert a[..i] == [a[0]] + a[1..][..i - 1] && b[..i] == [b[0]] + b[1..][..i - 1];
      assert a[..i] == b[..i] <==> a[0] == b[0] && a[1..][..i - 1] == b[1..][..i - 1] by {
        assert a[..i][0] == a[0] && b[..i][0] == b[0];
        assert a[..i][1..] == a[1..][..i - 1] && b[..i][1..] == b[1..][..i - 1];
      }
    }
  }

  lemma {:induction false} LexIs(a: string, b: string)
    ensures LexLess(a, b) <==> exists i :: EarlierAt(a, b, i)
    decreases |a|
  {
    if LexLess(a, b) {
      if a == "" || a[0] < b[0] {
        assert EarlierAt(a, b, 0);
      } else {
        LexIs(a[1..], b[1..]);
        var i: nat :| EarlierAt(a[1..], b[1..], i);
        EarlierBelow(a, b, i + 1);
      }
    }
    forall i | EarlierAt(a, b, i)
      ensures LexLess(a, b)
    {
      if i > 0 {
        EarlierBelow(a, b, i);
        LexIs(a[1..], b[1..]);
      }
    }
  }

  /** At the first place where they differ, the smaller character or the end of the string comes first. */
  lemma LexMeaning(a: string, b: string)
    ensures LexLess(a, b) <==>
            exists i :: 0 <= i <= |a| && i < |b| && a[..i] == b[..i] && (i == |a| || a[i] < b[i])
  {
    LexIs(a, b);
    hide LexLess;
    assert forall i: nat :: EarlierAt(a, b, i) ==> i <= |a| && a[..i] == b[..i];
    if i :| 0 <= i <= |a| && i < |b| && a[..i] == b[..i] && (i == |a| || a[i] < b[i]) {
      assert EarlierAt(a, b, i);
    }
  }

  lemma {:induction false} LexTotal(a: string, b: string)
    ensures !LexLess(a, a)
    ensures LexLess(a, b) || a == b || LexLess(b, a)
  {
    if a != "" && b != "" {
      LexTotal(a[1..], b[1..]);
      assert a == [a[0]] + a[1..] && b == [b[0]] + b[1..];
    } else if a != "" {
      LexTotal(a[1..], "");
    }
  }

  lemma {:induction false} LexTransitive(a: string, b: string, c: string)
    requires LexLess(a, b) && LexLess(b, c)
    ensures LexLess(a, c)
  {
    if a != "" && a[0] == b[0] == c[0] {
      LexTransitive(a[1..], b[1..], c[1..]);
    }
  }

  lemma LexIsOrder()
    ensures StrictOrder(LexLess)
  {
    forall a, b
      ensures !LexLess(a, a) && (LexLess(a, b) || a == b || LexLess(b, a))
    {
      LexTotal(a, b);
    }
    forall a, b, c | LexLess(a, b) && LexLess(b, c)
      ensures LexLess(a, c)
    {
      LexTransitive(a, b, c);
    }
  }
}
