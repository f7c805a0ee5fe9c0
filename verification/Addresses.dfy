/** The text "ip:port" in which servers hand each other their addresses, and the two ways the code takes it apart. */
module Addresses {
  import opened Bytes

  datatype Peer = Peer(ip: bytes, port: i32)

  datatype Parsed = Parsed(peer: Peer) | Thrown

  function Digit(d: int): byte
    requires 0 <= d < 10
  {
    ('0' as int + d) as char
  }

  predicate IsDigit(c: byte) {
    '0' <= c <= '9'
  }

  /** std::to_string of a number that is not negative. */
  function Decimal(n: nat): (s: bytes)
    ensures s != [] && forall k :: 0 <= k < |s| ==> IsDigit(s[k])
  {
    if n < 10 then [Digit(n)] else Decimal(n / 10) + [Digit(n % 10)]
  }

  /** std::to_string of an int. */
  function ToString(n: i32): bytes {
    if n < 0 then "-" + Decimal(0 - n) else Decimal(n)
  }

  function Render(p: Peer): bytes {
    p.ip + ":" + ToString(p.port)
  }

  predicate IsSpace(c: byte) {
    c == ' ' || '\t' <= c <= '\r'
  }

  function SkipSpaces(s: bytes): bytes {
    if s != [] && IsSpace(s[0]) then SkipSpaces(s[1..]) else s
  }

  /** The number the leading digits of `s` spell, after `seen`. */
  function LeadingDigits(s: bytes, seen: nat): nat {
    if s != [] && IsDigit(s[0]) then LeadingDigits(s[1..], 10 * seen + (s[0] as int - '0' as int)) else seen
  }

  datatype Number = Number(value: i32) | NoNumber

  /** std::stoi: spaces, a sign, digits; it throws without a digit or when the value does not fit. */
  function StoI(s: bytes): Number {
    var t := SkipSpaces(s);
    var signed := t != [] && (t[0] == '-' || t[0] == '+');
    var digits := if signed then t[1..] else t;
    if digits == [] || !IsDigit(digits[0]) then NoNumber
    else
      var v := LeadingDigits(digits, 0);
      var n: int := if signed && t[0] == '-' then 0 - v else v;
      if -TWO_31 <= n < TWO_31 then Number(n) else NoNumber
  }

  /** The position of the first colon, or |s|. */
  function FirstColon(s: bytes): (k: nat)
    ensures k <= |s|
    ensures k < |s| ==> s[k] == ':'
    ensures ':' !in s[..k]
  {
    if s == [] || s[0] == ':' then 0 else 1 + FirstColon(s[1..])
  }

  /** The position of the last colon, or |s|. */
  function LastColon(s: bytes): (k: nat)
    ensures k <= |s|
    ensures k < |s| ==> s[k] == ':' && ':' !in s[k + 1..]
    ensures k == |s| ==> ':' !in s
  {
    if s == [] then 0
    else
      var k := LastColon(s[1..]);
      if k < |s| - 1 then k + 1 else if s[0] == ':' then 0 else |s|
  }

  /** Splitting at `k`; without a colon the code keeps the whole text on both sides. */
  function SplitAt(s: bytes, k: nat): Parsed
    requires k <= |s|
  {
    match StoI(if k == |s| then s else s[k + 1..])
    case Number(n) => Parsed(Peer(s[..k], n))
    case NoNumber => Thrown
  }

  /** How a join request or reply is read: `find(":")` and `stoi`. */
  function ParseFirst(s: bytes): Parsed {
    SplitAt(s, FirstColon(s))
  }

  /** How an announcement is read: `rfind(":")`; the code's atoi differs from stoi only where stoi throws. */
  function ParseLast(s: bytes): Parsed {
    SplitAt(s, LastColon(s))
  }

  lemma {:induction false} DigitsOfDecimal(n: nat, rest: bytes)
    ensures LeadingDigits(Decimal(n) + rest, 0) == LeadingDigits(rest, n)
  {
    if n < 10 {
      assert (Decimal(n) + rest)[1..] == rest;
    } else {
      var last := [Digit(n % 10)];
      DigitsOfDecimal(n / 10, last + rest);
      assert Decimal(n) + rest == Decimal(n / 10) + (last + rest);
      assert (last + rest)[1..] == rest;
    }
  }

  lemma StoIOfToString(n: i32)
    ensures StoI(ToString(n)) == Number(n)
  {
    var m: int := if n < 0 then 0 - n else n;
    DigitsOfDecimal(m, []);
    assert Decimal(m) + [] == Decimal(m);
    assert ("-" + Decimal(m))[1..] == Decimal(m);
  }

  // ------------------------------------------------------------------ any text at all

  /** What isspace accepts. */
  predicate IsBlank(c: byte) {
    c as int in {9, 10, 11, 12, 13, 32}
  }

  predicate Blank(s: bytes) {
    forall k :: 0 <= k < |s| ==> IsBlank(s[k])
  }

  predicate AllDigits(s: bytes) {
    forall k :: 0 <= k < |s| ==> '0' <= s[k] <= '9'
  }

  /** The number a text of digits spells. */
  function Value(digits: bytes): nat
    requires AllDigits(digits)
  {
    if digits == [] then 0 else 10 * Value(digits[..|digits| - 1]) + (digits[|digits| - 1] as int - '0' as int)
  }

  predicate StartsWithDigit(s: bytes) {
    s != [] && '0' <= s[0] <= '9'
  }

  lemma {:induction false} BlanksAreSkipped(blanks: bytes, s: bytes)
    requires Blank(blanks) && (s == [] || !IsBlank(s[0]))
    ensures SkipSpaces(blanks + s) == s
  {
    if blanks == [] {
      assert blanks + s == s;
    } else {
      assert (blanks + s)[1..] == blanks[1..] + s;
      BlanksAreSkipped(blanks[1..], s);
    }
  }

  lemma {:induction false} DigitsAreRead(digits: bytes, rest: bytes)
    requires AllDigits(digits)
    ensures LeadingDigits(digits + rest, 0) == LeadingDigits(rest, Value(digits))
  {
    if digits == [] {
      assert digits + rest == rest;
    } else {
      var m := |digits| - 1;
      var later := [digits[m]] + rest;
      DigitsAreRead(digits[..m], later);
      assert digits + rest == digits[..m] + later;
      assert later[1..] == rest;
    }
  }

  predicate IsSign(s: bytes) {
    s == "" || s == "-" || s == "+"
  }

  /** After blanks and a sign, stoi reads digits as far as they go; the value has to fit an int. */
  lemma StoIReadsDigits(blanks: bytes, sign: bytes, digits: bytes, rest: bytes)
    requires Blank(blanks) && IsSign(sign) && AllDigits(digits) && digits != [] && !StartsWithDigit(rest)
    ensures var n: int := if sign == "-" then 0 - Value(digits) else Value(digits);
            StoI(blanks + sign + digits + rest) == if -TWO_31 <= n < TWO_31 then Number(n) else NoNumber
  {
    var t := sign + digits + rest;
    assert t[0] == if sign == "" then digits[0] else sign[0];
    BlanksAreSkipped(blanks, t);
    assert blanks + sign + digits + rest == blanks + t;
    assert (if sign == "" then t else t[1..]) == digits + rest;
    DigitsAreRead(digits, rest);
  }

  /** Without a digit there stoi throws. */
  lemma StoINeedsDigit(blanks: bytes, sign: bytes, rest: bytes)
    requires Blank(blanks) && IsSign(sign) && !StartsWithDigit(rest)
    requires sign == "" && rest != [] ==> !IsBlank(rest[0]) && rest[0] != '-' && rest[0] != '+'
    ensures StoI(blanks + sign + rest) == NoNumber
  {
    var t := sign + rest;
    assert t != [] ==> t[0] == if sign == "" then rest[0] else sign[0];
    BlanksAreSkipped(blanks, t);
    assert blanks + sign + rest == blanks + t;
    assert sign != "" ==> t[1..] == rest;
    assert sign == "" ==> t == rest;
  }

  /** to_string writes the digits of the number without leading zeros, after a minus if it is negative. */
  lemma {:induction false} DecimalSpells(n: nat)
    ensures AllDigits(Decimal(n)) && Value(Decimal(n)) == n
    ensures n > 0 ==> Decimal(n)[0] != '0'
    ensures n == 0 ==> Decimal(n) == "0"
  {
    if n < 10 {
      assert Decimal(n)[..0] == [];
    } else {
      DecimalSpells(n / 10);
      assert Decimal(n)[..|Decimal(n)| - 1] == Decimal(n / 10);
    }
  }

  lemma ToStringSpells(n: i32)
    ensures n < 0 ==> ToString(n) == "-" + ToString(n)[1..]
    ensures var digits := if n < 0 then ToString(n)[1..] else ToString(n);
            && AllDigits(digits) && digits != [] && (|digits| > 1 ==> digits[0] != '0')
            && Value(digits) == if n < 0 then 0 - n else n
  {
    var m: int := if n < 0 then 0 - n else n;
    DecimalSpells(m);
    assert ("-" + Decimal(m))[1..] == Decimal(m);
  }

  lemma {:induction false} FirstColonAt(s: bytes, m: nat)
    requires m < |s| && s[m] == ':' && ':' !in s[..m]
    ensures FirstColon(s) == m
  {
    if m > 0 {
      assert s[..m][0] == s[0];
      assert s[1..][..m - 1] == s[..m][1..];
      FirstColonAt(s[1..], m - 1);
    }
  }

  lemma {:induction false} FirstColonNotAfter(s: bytes, j: nat)
    requires j < |s| && s[j] == ':'
    ensures FirstColon(s) <= j
  {
    if s[0] != ':' {
      FirstColonNotAfter(s[1..], j - 1);
    }
  }

  lemma {:induction false} LastColonAt(s: bytes, m: nat)
    requires m < |s| && s[m] == ':' && ':' !in s[m + 1..]
    ensures LastColon(s) == m
  {
    if m > 0 {
      assert s[1..][m..] == s[m + 1..];
      LastColonAt(s[1..], m - 1);
    } else {
      assert LastColon(s[1..]) == |s| - 1;
    }
  }

  /** How the two ways take any text apart: at its first or its last colon, or not at all. */
  lemma FirstSplits(head: bytes, tail: bytes)
    requires ':' !in head
    ensures ParseFirst(head + ":" + tail)
            == match StoI(tail) case Number(n) => Parsed(Peer(head, n)) case NoNumber => Thrown
  {
    var s := head + ":" + tail;
    assert s[|head|] == ':' && s[..|head|] == head && s[|head| + 1..] == tail;
    FirstColonAt(s, |head|);
  }

  lemma LastSplits(head: bytes, tail: bytes)
    requires ':' !in tail
    ensures ParseLast(head + ":" + tail)
            == match StoI(tail) case Number(n) => Parsed(Peer(head, n)) case NoNumber => Thrown
    ensures LastColon(head + ":" + tail) == |head|
  {
    var s := head + ":" + tail;
    assert s[|head|] == ':' && s[..|head|] == head && s[|head| + 1..] == tail;
    LastColonAt(s, |head|);
  }

  lemma NoColonKeepsAll(s: bytes)
    requires ':' !in s
    ensures ParseFirst(s) == ParseLast(s)
            == match StoI(s) case Number(n) => Parsed(Peer(s, n)) case NoNumber => Thrown
  {
    assert s[..|s|] == s;
    assert FirstColon(s) == |s| && LastColon(s) == |s|;
  }

  lemma LastColonFindsPort(p: Peer)
    ensures ParseLast(Render(p)) == Parsed(p)
  {
    var s, m := Render(p), |p.ip|;
    StoIOfToString(p.port);
    assert s[m] == ':' && s[..m] == p.ip && s[m + 1..] == ToString(p.port);
    LastColonAt(s, m);
  }

  lemma FirstColonFindsPort(p: Peer)
    ensures ParseFirst(Render(p)) == Parsed(p) <==> ':' !in p.ip
  {
    var s, m := Render(p), |p.ip|;
    if ':' !in p.ip {
      StoIOfToString(p.port);
      assert s[m] == ':' && s[..m] == p.ip && s[m + 1..] == ToString(p.port);
      FirstColonAt(s, m);
    } else {
      var j :| 0 <= j < m && p.ip[j] == ':';
      assert s[j] == ':';
      FirstColonNotAfter(s, j);
    }
  }

  /** The last colon always finds the port; the first one does exactly when the host part holds no colon. */
  lemma AddressRoundTrip(p: Peer)
    ensures ParseLast(Render(p)) == Parsed(p)
    ensures ParseFirst(Render(p)) == Parsed(p) <==> ':' !in p.ip
  {
    LastColonFindsPort(p);
    FirstColonFindsPort(p);
  }
}
