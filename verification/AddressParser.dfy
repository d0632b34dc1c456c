/**
 Address arguments of the command line tool: "host:port" split at the last colon, a bare port that stands
 for the local host, and "host:port:type" for ICE candidates. Strings are C strings: the characters
 before the terminating NUL.
 */
module AddressParser {
  import opened Arithmetic
  import opened Bytes

  const NUL := '\0'
  const LOCALHOST := "127.0.0.1"

  predicate IsCString(s: string)
  {
    NUL !in s
  }

  /** The string a buffer holds: everything before its first NUL. */
  function CString(buf: seq<char>): string
  {
    if buf == [] || buf[0] == NUL then [] else [buf[0]] + CString(buf[1..])
  }

  lemma {:induction false} CStringIs(buf: seq<char>, s: string)
    requires IsCString(s) && |s| < |buf| && buf[..|s|] == s && buf[|s|] == NUL
    ensures CString(buf) == s
  {
    if s != [] {
      assert buf[0] == s[0] && s[0] in s;
      assert buf[1..][..|s| - 1] == s[1..];
      CStringIs(buf[1..], s[1..]);
      assert s == [s[0]] + s[1..];
    }
  }

  /* ---- numbers ---- */

  predicate IsDigit(c: char)
  {
    '0' <= c <= '9'
  }

  function Digit(c: char): int
  {
    c as int - '0' as int
  }

  predicate IsSpace(c: char)
  {
    c == ' ' || '\t' <= c <= '\r'
  }

  /** The value of the digits of `s`, most significant first. */
  function Value(s: string): int
  {
    if s == [] then 0 else Value(s[..|s| - 1]) * 10 + Digit(s[|s| - 1])
  }

  function DigitRun(s: string): (n: nat)
    ensures n <= |s|
    ensures forall i :: 0 <= i < n ==> IsDigit(s[i])
    ensures n < |s| ==> !IsDigit(s[n])
  {
    if s == [] || !IsDigit(s[0]) then 0 else 1 + DigitRun(s[1..])
  }

  function SpaceRun(s: string): (n: nat)
    ensures n <= |s|
  {
    if s == [] || !IsSpace(s[0]) then 0 else 1 + SpaceRun(s[1..])
  }

  /** Value and number of characters consumed; nothing is consumed without a digit. */
  datatype Number = Number(value: int, consumed: nat)

  /** The digits at the front of `t`, which follows `before` characters. */
  function ReadDigits(t: string, before: nat, negative: bool): (r: Number)
    ensures r.consumed <= before + |t|
  {
    var n := DigitRun(t);
    if n == 0 then Number(0, 0)
    else Number(if negative then -Value(t[..n]) else Value(t[..n]), before + n)
  }

  function Strtol(s: string): (r: Number)
    ensures r.consumed <= |s|
  {
    var i := SpaceRun(s);
    if i < |s| && (s[i] == '-' || s[i] == '+') then ReadDigits(s[i + 1..], i + 1, s[i] == '-')
    else ReadDigits(s[i..], i, false)
  }

  /** The conversion of a (64-bit, saturating) long to an int. */
  function ToInt(v: int): int
  {
    Wrap32(if v > 0x7fff_ffff_ffff_ffff then 0x7fff_ffff_ffff_ffff
           else if v < -0x8000_0000_0000_0000 then -0x8000_0000_0000_0000 else v)
  }

  function Decimal(n: nat): (s: string)
    ensures s != [] && forall c :: c in s ==> IsDigit(c)
  {
    var last := [('0' as int + n % 10) as char];
    if n < 10 then last else Decimal(n / 10) + last
  }

  lemma {:induction false} DecimalValue(n: nat)
    ensures Value(Decimal(n)) == n
  {
    var s := Decimal(n);
    var last := ('0' as int + n % 10) as char;
    if n < 10 {
      assert s == [last] && s[..0] == [];
    } else {
      DecimalValue(n / 10);
      assert s[..|s| - 1] == Decimal(n / 10) && s[|s| - 1] == last;
    }
  }

  lemma {:induction false} AllDigits(s: string)
    requires forall c :: c in s ==> IsDigit(c)
    ensures DigitRun(s) == |s|
  {
    if s != [] {
      assert s[0] in s;
      AllDigits(s[1..]);
    }
  }

  /** Reading back a printed port number consumes it whole and gives the number. */
  lemma StrtolDecimal(n: nat)
    requires n < TWO31
    ensures Strtol(Decimal(n)) == Number(n, |Decimal(n)|) && ToInt(n) == n
  {
    var s := Decimal(n);
    assert s[0] in s && s[0..] == s && s[..|s|] == s;
    AllDigits(s);
    DecimalValue(n);
  }

  lemma BlankCharacters(c: char)
    ensures IsSpace(c) <==> c as int in {9, 10, 11, 12, 13, 32}
  {
  }

  lemma {:induction false} SpaceRunOf(blanks: string, rest: string)
    requires (forall c :: c in blanks ==> IsSpace(c)) && (rest == [] || !IsSpace(rest[0]))
    ensures SpaceRun(blanks + rest) == |blanks|
  {
    if blanks == [] {
      assert blanks + rest == rest;
    } else {
      assert blanks[0] in blanks && (blanks + rest)[1..] == blanks[1..] + rest;
      SpaceRunOf(blanks[1..], rest);
    }
  }

  lemma {:induction false} DigitRunOf(digits: string, rest: string)
    requires (forall c :: c in digits ==> IsDigit(c)) && (rest == [] || !IsDigit(rest[0]))
    ensures DigitRun(digits + rest) == |digits|
  {
    if digits == [] {
      assert digits + rest == rest;
    } else {
      assert digits[0] in digits && (digits + rest)[1..] == digits[1..] + rest;
      DigitRunOf(digits[1..], rest);
    }
  }

  /** Blanks, an optional sign and digits. */
  predicate IsNumeral(blanks: string, sign: string, digits: string)
  {
    && (forall c :: c in blanks ==> IsSpace(c)) && (sign == "" || sign == "+" || sign == "-")
    && digits != [] && forall c :: c in digits ==> IsDigit(c)
  }

  function Signed(sign: string, v: int): int
  {
    if sign == "-" then -v else v
  }

  lemma DigitsRead(before: nat, digits: string, rest: string, negative: bool)
    requires digits != [] && (forall c :: c in digits ==> IsDigit(c)) && (rest == [] || !IsDigit(rest[0]))
    ensures ReadDigits(digits + rest, before, negative)
         == Number(if negative then -Value(digits) else Value(digits), before + |digits|)
  {
    DigitRunOf(digits, rest);
    assert (digits + rest)[..|digits|] == digits;
  }

  lemma UnsignedReads(blanks: string, tail: string)
    requires (forall c :: c in blanks ==> IsSpace(c)) && tail != [] && IsDigit(tail[0])
    ensures Strtol(blanks + tail) == ReadDigits(tail, |blanks|, false)
  {
    SpaceRunOf(blanks, tail);
    assert (blanks + tail)[|blanks|] == tail[0] && (blanks + tail)[|blanks|..] == tail;
  }

  lemma SignedReads(blanks: string, sign: char, tail: string)
    requires (forall c :: c in blanks ==> IsSpace(c)) && (sign == '+' || sign == '-')
    ensures Strtol(blanks + ([sign] + tail)) == ReadDigits(tail, |blanks| + 1, sign == '-')
  {
    SpaceRunOf(blanks, [sign] + tail);
    var s := blanks + ([sign] + tail);
    assert s[|blanks|] == sign && s[|blanks| + 1..] == tail;
  }

  /** The scan takes the blanks, the sign and the digits, stops at the first character that is no digit, and the
      sign decides the value. */
  lemma StrtolReads(blanks: string, sign: string, digits: string, rest: string)
    requires IsNumeral(blanks, sign, digits) && (rest == [] || !IsDigit(rest[0]))
    ensures Strtol(blanks + (sign + (digits + rest)))
         == Number(Signed(sign, Value(digits)), |blanks| + |sign| + |digits|)
  {
    var tail := digits + rest;
    assert digits[0] in digits && tail[0] == digits[0];
    if sign == "" {
      assert sign + tail == tail;
      UnsignedReads(blanks, tail);
      DigitsRead(|blanks|, digits, rest, false);
    } else {
      assert sign == [sign[0]];
      SignedReads(blanks, sign[0], tail);
      DigitsRead(|blanks| + 1, digits, rest, sign == "-");
    }
  }

  /** A number followed by anything else is read up to there. */
  lemma StrtolStops(digits: string, c: char, rest: string)
    requires digits != [] && (forall d :: d in digits ==> IsDigit(d)) && !IsDigit(c)
    ensures Strtol(digits + ([c] + rest)) == Number(Value(digits), |digits|)
  {
    var none: string := "";
    StrtolReads(none, none, digits, [c] + rest);
    var tail := digits + ([c] + rest);
    assert none + (none + tail) == tail;
  }

  lemma NoDigits(blanks: string, sign: string, rest: string)
    requires (forall c :: c in blanks ==> IsSpace(c)) && (sign == "+" || sign == "-")
    requires rest == [] || !IsDigit(rest[0])
    ensures Strtol(blanks + (sign + rest)) == Number(0, 0)
  {
    assert sign == [sign[0]];
    SignedReads(blanks, sign[0], rest);
  }

  /** The argument is a number from its first character to its last. */
  ghost predicate WholeNumber(s: string)
  {
    exists blanks, sign, digits :: IsNumeral(blanks, sign, digits) && s == blanks + (sign + digits)
  }

  lemma {:induction false} SpaceRunBlank(s: string)
    ensures forall c :: c in s[..SpaceRun(s)] ==> IsSpace(c)
  {
    if s != [] && IsSpace(s[0]) {
      SpaceRunBlank(s[1..]);
      assert s[..SpaceRun(s)] == [s[0]] + s[1..][..SpaceRun(s[1..])];
    }
  }

  lemma Consumed(s: string, blanks: string, sign: string, digits: string)
    requires s != [] && Strtol(s).consumed == |s|
    requires var i := SpaceRun(s);
             var start := if i < |s| && (s[i] == '-' || s[i] == '+') then i + 1 else i;
             blanks == s[..i] && sign == s[i..start] && digits == s[start..]
    ensures IsNumeral(blanks, sign, digits)
  {
    SpaceRunBlank(s);
    assert DigitRun(digits) == |digits| && digits != [];
    assert sign == "" || sign == [s[|blanks|]];
  }

  lemma NumeralConsumed(blanks: string, sign: string, digits: string)
    requires IsNumeral(blanks, sign, digits)
    ensures Strtol(blanks + (sign + digits)) == Number(Signed(sign, Value(digits)), |blanks| + |sign| + |digits|)
  {
    var none: string := "";
    StrtolReads(blanks, sign, digits, none);
    assert digits + none == digits;
  }

  lemma ConsumedWhole(s: string)
    requires s != [] && Strtol(s).consumed == |s|
    ensures WholeNumber(s)
  {
    var i := SpaceRun(s);
    var start := if i < |s| && (s[i] == '-' || s[i] == '+') then i + 1 else i;
    var blanks, sign, digits := s[..i], s[i..start], s[start..];
    Consumed(s, blanks, sign, digits);
    assert s == blanks + (sign + digits);
  }

  /** Everything is consumed if and only if the argument is blanks, an optional sign and digits to its end. */
  lemma ConsumedIff(s: string)
    ensures s != [] && Strtol(s).consumed == |s| <==> WholeNumber(s)
  {
    if s != [] && Strtol(s).consumed == |s| {
      ConsumedWhole(s);
    } else if WholeNumber(s) {
      var blanks, sign, digits :| IsNumeral(blanks, sign, digits) && s == blanks + (sign + digits);
      NumeralConsumed(blanks, sign, digits);
    }
  }

  /** Numbers of int range keep their value; beyond the range of a long the conversion saturates first. */
  lemma ToIntIs(v: int)
    ensures -TWO31 <= v < TWO31 ==> ToInt(v) == v
    ensures v >= 0x7fff_ffff_ffff_ffff ==> ToInt(v) == -1
    ensures v <= -0x8000_0000_0000_0000 ==> ToInt(v) == 0
    ensures -0x8000_0000_0000_0000 <= v <= 0x7fff_ffff_ffff_ffff ==> ToInt(v) == Wrap32(v)
  {
    WrapCongruent(-1, TWO31);
    WrapCongruent(0, -TWO31);
  }

  /* ---- parsing ---- */

  /** The last colon after the first character. */
  function LastColon(addr: string): (k: Option<nat>)
    ensures k.Some? ==> 0 < k.value < |addr| && addr[k.value] == ':' && ':' !in addr[k.value + 1..]
    ensures k.None? ==> |addr| <= 1 || ':' !in addr[1..]
  {
    if |addr| <= 1 then None
    else if addr[|addr| - 1] == ':' then Some(|addr| - 1)
    else
      var front := addr[..|addr| - 1];
      assert addr == front + [addr[|addr| - 1]];
      var k := LastColon(front);
      assert k.Some? ==> addr[k.value + 1..] == front[k.value + 1..] + [addr[|addr| - 1]];
      assert addr[1..] == front[1..] + [addr[|addr| - 1]];
      k
  }

  /** Copies at most `n` characters and fills up with NULs, as strncpy does. */
  method Strncpy(dst: array<char>, src: string, n: nat)
    requires n <= dst.Length
    modifies dst
    ensures dst[..] == src[..Min(n, |src|)] + seq(n - Min(n, |src|), _ => NUL) + old(dst[n..])
  {
    forall k | 0 <= k < n {
      dst[k] := if k < |src| then src[k] else NUL;
    }
  }

  /** The backward scan; the first character is never examined. */
  method FindColon(addr: string) returns (semicolon: Option<nat>)
    ensures semicolon == LastColon(addr)
  {
    var p := |addr| - 1;
    assert addr[..|addr|] == addr;
    while p > 0
      invariant -1 <= p < |addr|
      invariant LastColon(addr) == LastColon(addr[..p + 1])
    {
      assert addr[..p + 1][..p] == addr[..p];
      if addr[p] == ':' {
        return Some(p);
      }
      p := p - 1;
    }
    return None;
  }

  /** Copies the first `slen` characters and terminates them. */
  method StoreHost(ip: array<char>, addr: string, slen: nat)
    requires IsCString(addr) && slen < ip.Length && slen <= |addr|
    modifies ip
    ensures CString(ip[..]) == addr[..slen]
  {
    Strncpy(ip, addr, slen);
    ip[slen] := NUL;
    assert ip[..slen] == addr[..slen];
    CStringIs(ip[..], addr[..slen]);
  }

  /** What a call leaves in the buffer when the address is a bare port: the local host, unterminated. */
  function LocalBuffer(before: seq<char>, len: nat): seq<char>
    requires len <= |before|
  {
    LOCALHOST[..Min(len, 9)] + before[Min(len, 9)..]
  }

  method StoreLocalhost(ip: array<char>, len: nat)
    requires len <= ip.Length
    modifies ip
    ensures ip[..] == LocalBuffer(old(ip[..]), len)
  {
    var n := Min(len, |LOCALHOST|);
    Strncpy(ip, LOCALHOST, n);
    assert old(ip[..])[n..] == old(ip[n..]);
  }

  method ParseAddr(addr: string, ip: array<char>, len: nat) returns (ok: bool, port: int)
    requires IsCString(addr) && 1 <= len <= ip.Length
    modifies ip
    ensures LastColon(addr).Some? ==>
              && ok && port == ToInt(Strtol(addr[LastColon(addr).value + 1..]).value)
              && CString(ip[..]) == addr[..Min(LastColon(addr).value, len - 1)]
    ensures LastColon(addr).None? ==>
              && ok == (addr != [] && Strtol(addr).consumed == |addr|) && (ok <==> WholeNumber(addr))
              && port == ToInt(Strtol(addr).value)
              && ip[..] == if ok then LocalBuffer(old(ip[..]), len) else old(ip[..])
  {
    port := 0;
    ConsumedIff(addr);
    var semicolon := FindColon(addr);
    if semicolon.None? {
      var number := Strtol(addr);
      port := ToInt(number.value);
      if number.consumed != |addr| || number.consumed == 0 {
        return false, port;
      }
      StoreLocalhost(ip, len);
      return true, port;
    }
    var iplen := semicolon.value;
    var slen := Min(iplen, len - 1);
    StoreHost(ip, addr, slen);
    port := ToInt(Strtol(addr[semicolon.value + 1..]).value);
    return true, port;
  }

  /** The last colon anywhere, as strrchr finds it. */
  function AnyLastColon(addr: string): (k: Option<nat>)
  {
    if LastColon(addr).Some? then LastColon(addr) else if addr != [] && addr[0] == ':' then Some(0) else None
  }

  lemma AnyLastColonIs(addr: string)
    ensures AnyLastColon(addr).None? <==> ':' !in addr
    ensures AnyLastColon(addr).Some? ==>
              var k := AnyLastColon(addr).value;
              k < |addr| && addr[k] == ':' && ':' !in addr[k + 1..]
  {
    if addr != [] {
      assert addr == [addr[0]] + addr[1..];
    }
  }

  /** Both colons of "host:port:type": the last one, and the last one before it. */
  predicate HasParts(s: string)
  {
    AnyLastColon(s).Some? && LastColon(s[..AnyLastColon(s).value]).Some?
  }

  function TypeColon(s: string): (k: nat)
    requires AnyLastColon(s).Some?
    ensures k < |s|
  {
    AnyLastColon(s).value
  }

  function PortColon(s: string): (j: nat)
    requires HasParts(s)
    ensures j < TypeColon(s)
  {
    LastColon(s[..TypeColon(s)]).value
  }

  /** Writes the terminator over the colon. */
  method CutAt(addr: array<char>, k: nat)
    requires k < |CString(addr[..])| <= addr.Length
    modifies addr
    ensures CString(addr[..]) == old(CString(addr[..]))[..k]
  {
    ghost var s := CString(addr[..]);
    CStringClean(addr[..]);
    addr[k] := NUL;
    assert addr[..k] == s[..k];
    CStringIs(addr[..], s[..k]);
  }

  /** The terminator of the type is written one past a buffer of exactly `typeLen` characters. */
  predicate TypeOverruns(s: string, typeLen: nat, length: nat)
  {
    AnyLastColon(s).Some? && length == typeLen && |s| - TypeColon(s) - 1 >= typeLen
  }

  /** The candidate type follows the last colon, which is overwritten by a NUL before the rest is parsed.
      `overrun` stands for the write past the end of the type buffer; nothing more is promised then. */
  method ParseIceAddr(addr: array<char>, typ: array<char>, typeLen: nat, ip: array<char>, ipLen: nat, ghost s: string)
    returns (ok: bool, port: int, overrun: bool)
    requires addr != typ && addr != ip && typ != ip && 1 <= ipLen <= ip.Length && typeLen <= typ.Length
    requires s == CString(addr[..]) && |s| < addr.Length
    modifies addr, typ, ip
    ensures overrun <==> TypeOverruns(s, typeLen, typ.Length)
    ensures AnyLastColon(s).None? ==> !ok
    ensures AnyLastColon(s).Some? && !overrun ==>
              && CString(typ[..]) == s[TypeColon(s) + 1..][..Min(|s| - TypeColon(s) - 1, typeLen)]
              && CString(addr[..]) == s[..TypeColon(s)]
    ensures AnyLastColon(s).Some? && !overrun && !HasParts(s) ==>
              var rest := s[..TypeColon(s)];
              && ok == (rest != [] && Strtol(rest).consumed == |rest|)
              && port == ToInt(Strtol(rest).value)
              && ip[..] == if ok then LocalBuffer(old(ip[..]), ipLen) else old(ip[..])
    ensures HasParts(s) && !overrun ==>
              && ok && port == ToInt(Strtol(s[..TypeColon(s)][PortColon(s) + 1..]).value)
              && CString(ip[..]) == s[..TypeColon(s)][..Min(PortColon(s), ipLen - 1)]
  {
    ok, port, overrun := false, 0, false;
    var str := CString(addr[..]);
    CStringClean(addr[..]);
    var semicolon := AnyLastColon(str);
    if semicolon.None? {
      return;
    }
    var k := semicolon.value;
    overrun := StoreType(typ, str[k + 1..], typeLen);
    if overrun {
      return;
    }
    CutAt(addr, k);
    ok, port := ParseAddr(str[..k], ip, ipLen);
  }

  /** Three characters of type for a buffer of three. */
  lemma TypeOverrunExample()
    ensures TypeOverruns("h:1:abc", 3, 3)
  {
    LastColonAt("h:1:abc", 3);
  }

  lemma {:induction false} CStringClean(buf: seq<char>)
    ensures IsCString(CString(buf)) && |CString(buf)| <= |buf| && CString(buf) == buf[..|CString(buf)|]
  {
    if buf != [] && buf[0] != NUL {
      CStringClean(buf[1..]);
    }
  }

  method StoreType(typ: array<char>, src: string, typeLen: nat) returns (overrun: bool)
    requires IsCString(src) && typeLen <= typ.Length
    modifies typ
    ensures overrun <==> typ.Length == typeLen <= |src|
    ensures !overrun ==> CString(typ[..]) == src[..Min(|src|, typeLen)]
  {
    var slen := Min(|src|, typeLen);
    Strncpy(typ, src, typeLen);
    if slen >= typ.Length {
      return true;
    }
    typ[slen] := NUL;
    assert typ[..slen] == src[..slen];
    CStringIs(typ[..], src[..slen]);
    return false;
  }

  /* ---- round trip ---- */

  lemma {:induction false} LastColonAt(addr: string, k: nat)
    requires 0 < k < |addr| && addr[k] == ':' && ':' !in addr[k + 1..]
    ensures LastColon(addr) == Some(k)
  {
    assert addr[1..][k - 1] == ':';
    var v := LastColon(addr).value;
    assert forall i :: k < i < |addr| ==> addr[i] == addr[k + 1..][i - (k + 1)];
    assert forall i :: v < i < |addr| ==> addr[i] == addr[v + 1..][i - (v + 1)];
  }

  /** Every non-empty host (colons included), every port in int range and every colon-free type come back
      exactly from "host:port:type", when they are shorter than their buffers. */
  method IceRoundTrip(host: string, number: nat, kind: string, addr: array<char>, typ: array<char>, typeLen: nat,
                      ip: array<char>, ipLen: nat)
    returns (ok: bool, port: int)
    requires host != [] && IsCString(host) && IsCString(kind) && ':' !in kind && number < TWO31
    requires addr != typ && addr != ip && typ != ip
    requires |host| < ipLen <= ip.Length && |kind| < typeLen <= typ.Length
    requires CString(addr[..]) == host + ":" + Decimal(number) + ":" + kind && |CString(addr[..])| < addr.Length
    modifies addr, typ, ip
    ensures ok && port == number && CString(ip[..]) == host && CString(typ[..]) == kind
  {
    ghost var s := CString(addr[..]);
    IceParts(host, Decimal(number), kind, s);
    StrtolDecimal(number);
    assert kind[..|kind|] == kind;
    var overrun: bool;
    ok, port, overrun := ParseIceAddr(addr, typ, typeLen, ip, ipLen, s);
  }

  lemma IceParts(host: string, d: string, kind: string, s: string)
    requires host != [] && ':' !in kind && (forall c :: c in d ==> IsDigit(c))
    requires s == host + ":" + d + ":" + kind
    ensures HasParts(s) && PortColon(s) == |host| && TypeColon(s) == |host| + 1 + |d|
    ensures s[TypeColon(s) + 1..] == kind && |kind| == |s| - TypeColon(s) - 1
    ensures s[..TypeColon(s)][..PortColon(s)] == host && s[..TypeColon(s)][PortColon(s) + 1..] == d
  {
    IceColons(host, d, kind, s);
    var k, front := |host| + 1 + |d|, host + ":" + d;
    assert s == front + ":" + kind && s[..k] == front;
    assert front[..|host|] == host && front[|host| + 1..] == d;
  }

  lemma IceColons(host: string, d: string, kind: string, s: string)
    requires host != [] && ':' !in kind && (forall c :: c in d ==> IsDigit(c))
    requires s == host + ":" + d + ":" + kind
    ensures var j, k := |host|, |host| + 1 + |d|;
            LastColon(s) == Some(k) && LastColon(s[..k]) == Some(j)
  {
    var j, k := |host|, |host| + 1 + |d|;
    assert s[k + 1..] == kind && s[k] == ':';
    LastColonAt(s, k);
    assert s[..k][j] == ':' && s[..k][j + 1..] == d;
    LastColonAt(s[..k], j);
  }

  /** A bare port yields the local host, provided the buffer was zeroed beyond it. */
  lemma BarePort(before: seq<char>, len: nat)
    requires 9 <= len <= |before| && 10 <= |before|
    ensures CString(LocalBuffer(before, len)) == "127.0.0.1" <==> before[9] == NUL
  {
    var buf := LocalBuffer(before, len);
    assert buf[..9] == LOCALHOST && buf[9] == before[9];
    if before[9] == NUL {
      CStringIs(buf, LOCALHOST);
    } else {
      CStringLonger(buf, 9);
    }
  }

  lemma {:induction false} CStringLonger(buf: seq<char>, n: nat)
    requires n < |buf| && NUL !in buf[..n + 1]
    ensures |CString(buf)| > n
  {
    assert buf[0] in buf[..n + 1];
    if n > 0 {
      assert buf[1..][..n] == buf[..n + 1][1..];
      CStringLonger(buf[1..], n - 1);
    }
  }
}
