/** The SMS encoder of xgsm.c.  Octets and character codes are numbers below 256; a C string is a sequence without the
    code 0, read as 0 one place behind its end. */
module SmsPdu {
  import opened Common
  import opened Bits

  type octet = x: nat | x < 256

  // ---------------------------------------------------------------- powers of two

  lemma {:induction false} OneAdd(a: nat, b: nat)
    ensures One(a + b) == One(a) * One(b)
  {
    if a > 0 {
      OneAdd(a - 1, b);
      assert One(a + b) == 2 * One(a - 1 + b);
      assert 2 * (One(a - 1) * One(b)) == (2 * One(a - 1)) * One(b);
    } else {
      assert One(0) == 1;
    }
  }

  /** `|` of numbers without common bits is their sum. */
  lemma {:induction false} OrIsSum(x: nat, y: nat, k: nat)
    requires x < One(k)
    ensures Or(x, y * One(k)) == x + y * One(k)
  {
    if k == 0 {
      OrZero(y);
      assert y * One(0) == y;
    } else {
      assert y * One(k) == 2 * (y * One(k - 1));
      OrIsSum(x / 2, y, k - 1);
      if x == 0 && y * One(k) == 0 {
      } else {
        assert Or(x, y * One(k)) == 2 * Or(x / 2, y * One(k) / 2) + x % 2;
      }
    }
  }

  lemma {:induction false} OrZero(y: nat)
    ensures Or(0, y) == y
  {
    if y > 0 { OrZero(y / 2); }
  }

  // ---------------------------------------------------------------- 7-bit packing

  /** Little-endian value of octets, and of 7-bit characters. */
  function Value256(xs: seq<octet>): nat {
    if xs == [] then 0 else xs[0] + 256 * Value256(xs[1..])
  }

  function Value128(xs: seq<octet>): nat {
    if xs == [] then 0 else xs[0] + 128 * Value128(xs[1..])
  }

  lemma {:induction false} Value256Append(xs: seq<octet>, o: octet)
    ensures Value256(xs + [o]) == Value256(xs) + o * One(8 * |xs|)
  {
    if xs == [] {
      assert xs + [o] == [o] && One(0) == 1;
    } else {
      Value256Append(xs[1..], o);
      assert (xs + [o])[1..] == xs[1..] + [o];
      OneAdd(8, 8 * |xs[1..]|);
      assert One(8) == 256;
      assert 256 * (o * One(8 * |xs[1..]|)) == o * (256 * One(8 * |xs[1..]|));
    }
  }

  lemma {:induction false} Value128Append(xs: seq<octet>, o: octet)
    ensures Value128(xs + [o]) == Value128(xs) + o * One(7 * |xs|)
  {
    if xs == [] {
      assert xs + [o] == [o] && One(0) == 1;
    } else {
      Value128Append(xs[1..], o);
      assert (xs + [o])[1..] == xs[1..] + [o];
      OneAdd(7, 7 * |xs[1..]|);
      assert One(7) == 128;
      assert 128 * (o * One(7 * |xs[1..]|)) == o * (128 * One(7 * |xs[1..]|));
    }
  }

  ghost predicate SevenBit(data: seq<octet>) {
    forall i :: 0 <= i < |data| ==> data[i] < 128
  }

  /** The character at index `i` of a C string. */
  function At(data: seq<octet>, i: nat): octet
    requires i <= |data|
  {
    if i < |data| then data[i] else 0
  }

  function Quotient(x: nat, m: nat): nat
    requires m > 0
  {
    x / m
  }

  /** `x >> k`, `x & ((1 << k) - 1)` and `x << k` */
  function Shr(x: nat, k: nat): nat { Quotient(x, One(k)) }

  function Low(x: nat, k: nat): nat { x % One(k) }

  function Shl(x: nat, k: nat): nat { x * One(k) }

  lemma DivBelow(d: nat, a: nat, b: nat)
    requires a > 0 && d < a * b
    ensures d / a < b
  {
    assert a * (d / a) <= d;
  }

  lemma ModTimes(c: nat, m: nat, b: nat)
    requires m > 0 && b > 0
    ensures c % m * b + b <= m * b
  {
    assert (c % m + 1) * b <= m * b;
  }

  lemma PackedIsSum(d: octet, d1: octet, s: nat)
    requires s < 7 && d < 128
    ensures Or(Shr(d, s), Shl(Low(d1, s + 1), 7 - s)) == Shr(d, s) + Low(d1, s + 1) * One(7 - s) < 256
  {
    OneAdd(s, 7 - s);
    OneAdd(s + 1, 7 - s);
    assert One(7) == 128 && One(8) == 256;
    DivBelow(d, One(s), One(7 - s));
    OrIsSum(d / One(s), d1 % One(s + 1), 7 - s);
    ModTimes(d1, One(s + 1), One(7 - s));
  }

  /** `(d >> s) | ((d1 & ((1 << (s + 1)) - 1)) << (7 - s))` */
  function Packed(d: octet, d1: octet, s: nat): (o: octet)
    requires s < 7 && d < 128
  {
    PackedIsSum(d, d1, s);
    Or(Shr(d, s), Shl(Low(d1, s + 1), 7 - s))
  }

  lemma Rearrange(p: nat, a: nat, b: nat, q: nat, r: nat, c: nat)
    requires a * b == 128
    ensures r * p + (q + c * b) * (p * a) == (q * a + r) * p + c * (128 * p)
  {
    calc {
      (q + c * b) * (p * a);
      q * (p * a) + (c * b) * (p * a);
      { assert q * (p * a) == (q * a) * p; assert (c * b) * (p * a) == c * ((a * b) * p); }
      (q * a) * p + c * ((a * b) * p);
    }
  }

  lemma Assemble(p: nat, a: nat, b: nat, q: nat, r: nat, c: nat, d: nat, o: nat, e: nat, f: nat)
    requires a * b == 128 && d == q * a + r && o == q + c * b && e == p * a && f == 128 * p
    ensures r * p + o * e == d * p + c * f
  {
    Rearrange(p, a, b, q, r, c);
  }

  /** What one emitted octet adds: the rest of character `d` and the first bits of the next one. */
  lemma PackStep(d: octet, d1: octet, i: nat, n: nat)
    requires d < 128 && i % 8 < 7 && n == 7 * (i / 8) + i % 8
    ensures Low(d, i % 8) * One(7 * i) + Packed(d, d1, i % 8) * One(8 * n)
            == d * One(7 * i) + Low(d1, i % 8 + 1) * One(7 * (i + 1))
  {
    var s := i % 8;
    PackedIsSum(d, d1, s);
    assert 8 * n == 7 * i + s;
    OneAdd(7 * i, s);
    OneAdd(s, 7 - s);
    OneAdd(7, 7 * i);
    assert One(7) == 128;
    Divide(d, One(s));
    Assemble(One(7 * i), One(s), One(7 - s), Shr(d, s), Low(d, s), Low(d1, s + 1),
             d, Packed(d, d1, s), One(8 * n), One(7 * (i + 1)));
  }

  lemma Divide(d: nat, a: nat)
    requires a > 0
    ensures d == d / a * a + d % a
  {
  }

  lemma LowAll(x: nat)
    requires x < 128
    ensures Low(x, 7) == x
  {
    assert One(7) == 128;
  }

  lemma LowNone(x: nat)
    ensures Low(x, 0) == 0
  {
    assert One(0) == 1;
  }

  /** The loop invariant of the packing: after `i` characters the octets also hold `i % 8` bits of the next one. */
  ghost predicate PackedSoFar(data: seq<octet>, i: nat, resp: seq<octet>)
    requires i <= |data|
  {
    && |resp| == 7 * (i / 8) + i % 8
    && Value256(resp) == Value128(data[..i]) + Low(At(data, i), i % 8) * One(7 * i)
  }

  lemma PackRound(data: seq<octet>, i: nat, resp: seq<octet>)
    requires i < |data| && data[i] < 128 && PackedSoFar(data, i, resp)
    ensures i % 8 < 7 ==> PackedSoFar(data, i + 1, resp + [Packed(data[i], At(data, i + 1), i % 8)])
    ensures i % 8 == 7 ==> PackedSoFar(data, i + 1, resp)
  {
    assert data[..i + 1] == data[..i] + [data[i]];
    Value128Append(data[..i], data[i]);
    if i % 8 < 7 {
      PackStep(data[i], At(data, i + 1), i, |resp|);
      Value256Append(resp, Packed(data[i], At(data, i + 1), i % 8));
    } else {
      LowAll(data[i]);
      LowNone(At(data, i + 1));
    }
  }

  lemma LowOfEnd(k: nat, p: nat)
    ensures Low(0, k) * p == 0
  {
    var m := One(k);
    assert 0 % m == 0;
  }

  lemma CeilOctets(n: nat)
    ensures 7 * (n / 8) + n % 8 == (7 * n + 7) / 8
  {
  }

  lemma PackEnd(data: seq<octet>, resp: seq<octet>)
    requires PackedSoFar(data, |data|, resp)
    ensures |resp| == (7 * |data| + 7) / 8 && Value256(resp) == Value128(data)
  {
    assert data[..|data|] == data;
    LowOfEnd(|data| % 8, One(7 * |data|));
    CeilOctets(|data|);
  }

  /** The `len` lowest digits of `v` in base 256. */
  function OctetsOf(v: nat, len: nat): (r: seq<octet>)
    ensures |r| == len
  {
    if len == 0 then [] else [v % 256] + OctetsOf(v / 256, len - 1)
  }

  lemma LastDigit(a: octet, v: nat)
    ensures (a + 256 * v) % 256 == a && (a + 256 * v) / 256 == v
  {
  }

  lemma {:induction false} OctetsOfValue(xs: seq<octet>)
    ensures OctetsOf(Value256(xs), |xs|) == xs
  {
    if xs != [] {
      LastDigit(xs[0], Value256(xs[1..]));
      OctetsOfValue(xs[1..]);
      assert xs == [xs[0]] + xs[1..];
    }
  }

  /** The user data of a message: its value in base 128, written in base 256 with ceil(7 * len / 8) digits. */
  function UserData(msg: seq<octet>): (r: seq<octet>)
    ensures |r| == (7 * |msg| + 7) / 8
  {
    OctetsOf(Value128(msg), (7 * |msg| + 7) / 8)
  }

  /** `xgsm_pack7`: NULL exactly for characters beyond 7 bits; otherwise ceil(7 * len / 8) octets whose value in base
      256 is the value of the message in base 128. */
  method Pack7(data: seq<octet>) returns (r: Option<seq<octet>>)
    ensures r.Some? <==> SevenBit(data)
    ensures r.Some? ==> |r.value| == (7 * |data| + 7) / 8 && Value256(r.value) == Value128(data)
    ensures r.Some? ==> r.value == UserData(data)
  {
    var resp: seq<octet> := [];
    var i := 0;
    LowNone(At(data, 0));
    while i < |data|
      invariant 0 <= i <= |data| && SevenBit(data[..i]) && PackedSoFar(data, i, resp)
    {
      if data[i] >= 128 {
        return None;
      }
      PackRound(data, i, resp);
      var s := i % 8;
      if s < 7 {
        resp := resp + [Packed(data[i], At(data, i + 1), s)];
      }
      i := i + 1;
    }
    PackEnd(data, resp);
    OctetsOfValue(resp);
    r := Some(resp);
  }

  /** Unpacking with the known number of characters: the digits in base 128 of the value of the octets. */
  function Septets(v: nat, len: nat): seq<octet> {
    if len == 0 then [] else [v % 128] + Septets(v / 128, len - 1)
  }

  lemma LastSeptet(a: octet, v: nat)
    requires a < 128
    ensures (a + 128 * v) % 128 == a && (a + 128 * v) / 128 == v
  {
  }

  lemma {:induction false} SeptetsOfValue(data: seq<octet>)
    requires SevenBit(data)
    ensures Septets(Value128(data), |data|) == data
  {
    if data != [] {
      LastSeptet(data[0], Value128(data[1..]));
      SeptetsOfValue(data[1..]);
      assert data == [data[0]] + data[1..];
    }
  }

  // ---------------------------------------------------------------- semi-octets

  predicate IsDigit(c: octet) {
    48 <= c <= 57
  }

  ghost predicate Digits(nbr: seq<octet>) {
    forall i :: 0 <= i < |nbr| ==> IsDigit(nbr[i])
  }

  /** Semi-octets of a number: two digits per octet, the first in the low half, and 15 behind an odd last digit. */
  function SemiOctets(nbr: seq<octet>): (r: seq<octet>)
    requires Digits(nbr)
    ensures |r| == (|nbr| + 1) / 2
  {
    if nbr == [] then []
    else if |nbr| == 1 then [nbr[0] - 48 + 240]
    else [nbr[0] - 48 + 16 * (nbr[1] - 48)] + SemiOctets(nbr[2..])
  }

  lemma HighHalf(v: nat, d: nat)
    requires v < 16
    ensures Or(v, d * 16) == v + 16 * d
  {
    assert One(4) == 16;
    OrIsSum(v, d, 4);
  }

  /** `v | (d << 4)` */
  function Halves(v: nat, d: nat): (o: octet)
    requires v < 16 && d < 16
    ensures o == v + 16 * d
  {
    HighHalf(v, d);
    Or(v, d * 16)
  }

  /** The first `k` digits are coded in `resp`. */
  ghost predicate CodedSoFar(nbr: seq<octet>, k: nat, resp: seq<octet>) {
    && k <= |nbr| && (forall i :: 0 <= i < k ==> IsDigit(nbr[i]))
    && (Digits(nbr) ==> SemiOctets(nbr) == resp + SemiOctets(nbr[k..]))
  }

  lemma {:induction false} CodeTwo(nbr: seq<octet>, k: nat, resp: seq<octet>, v: octet)
    requires CodedSoFar(nbr, k, resp) && k + 1 < |nbr| && IsDigit(nbr[k]) && IsDigit(nbr[k + 1])
    requires v == nbr[k] - 48 + 16 * (nbr[k + 1] - 48)
    ensures CodedSoFar(nbr, k + 2, resp + [v])
  {
    if Digits(nbr) {
      assert nbr[k..][2..] == nbr[k + 2..];
    }
  }

  lemma {:induction false} CodeLast(nbr: seq<octet>, k: nat, resp: seq<octet>, v: octet)
    requires CodedSoFar(nbr, k, resp) && k + 1 == |nbr| && IsDigit(nbr[k]) && v == nbr[k] - 48 + 240
    ensures CodedSoFar(nbr, k + 1, resp + [v])
  {
    if Digits(nbr) {
      assert nbr[k..] == [nbr[k]] && nbr[k + 1..] == [];
    }
  }

  lemma {:induction false} CodedAll(nbr: seq<octet>, resp: seq<octet>)
    requires CodedSoFar(nbr, |nbr|, resp)
    ensures Digits(nbr) && resp == SemiOctets(nbr)
  {
    assert nbr[|nbr|..] == [];
  }

  /** `xgsm_code_number`: NULL exactly if some character is not a digit. */
  method CodeNumber(nbr: seq<octet>) returns (r: Option<seq<octet>>)
    ensures r.Some? <==> Digits(nbr)
    ensures r.Some? ==> r.value == SemiOctets(nbr)
  {
    var resp: seq<octet> := [];
    var k := 0;
    while k < |nbr|
      invariant 0 <= k <= |nbr| && CodedSoFar(nbr, k, resp)
    {
      if !IsDigit(nbr[k]) {
        return None;
      }
      var v := nbr[k] - 48;
      k := k + 1;
      if k < |nbr| {
        if !IsDigit(nbr[k]) {
          return None;
        }
        v := Halves(v, nbr[k] - 48);
        CodeTwo(nbr, k - 1, resp, v);
        k := k + 1;
      } else {
        v := Halves(v, 15);
        CodeLast(nbr, k - 1, resp, v);
      }
      resp := resp + [v];
    }
    CodedAll(nbr, resp);
    r := Some(resp);
  }

  /** Reading semi-octets, as section 9.1.2.3 of 3GPP TS 23.040 defines them: digits up to the end or a half of 15. */
  function FromSemiOctets(os: seq<octet>): seq<octet> {
    if os == [] then []
    else if os[0] / 16 == 15 then [48 + os[0] % 16]
    else [48 + os[0] % 16, 48 + os[0] / 16] + FromSemiOctets(os[1..])
  }

  lemma {:induction false} SemiOctetsRoundTrip(nbr: seq<octet>)
    requires Digits(nbr)
    ensures FromSemiOctets(SemiOctets(nbr)) == nbr
  {
    if |nbr| >= 2 {
      SemiOctetsRoundTrip(nbr[2..]);
      assert nbr == [nbr[0], nbr[1]] + nbr[2..];
      assert SemiOctets(nbr)[1..] == SemiOctets(nbr[2..]);
    } else if |nbr| == 1 {
      assert nbr == [nbr[0]];
    }
  }

  // ---------------------------------------------------------------- the SMS-SUBMIT unit

  const PLUS: octet := 43
  const NATIONAL: octet := 129
  const INTERNATIONAL: octet := 145

  /** `xgsm_get_vt`: the code of a validity period in minutes. */
  function GetVt(mins: nat): nat {
    if mins / (60 * 24 * 7) >= 5 then 192 + mins / (60 * 24 * 7)
    else if mins / (60 * 24) >= 2 then 166 + mins / (60 * 24)
    else if mins / 30 >= 12 * 60 / 30 then 143 + mins / 30 - 12 * 60 / 30
    else mins / 5
  }

  /** The period a code stands for, in minutes (section 9.2.3.12.1 of 3GPP TS 23.040). */
  function Minutes(vp: octet): nat {
    if vp <= 143 then (vp + 1) * 5
    else if vp <= 167 then 720 + (vp - 143) * 30
    else if vp <= 196 then (vp - 166) * 1440
    else (vp - 192) * 10080
  }

  /** The code stands for the period, up to one step of its scale, exactly if the period is below 24 and a half hours,
      or from 2 days to below 31 days, or from 5 weeks to below 64 weeks; between these it is a code of another scale,
      or none at all. */
  lemma ValidityIsRight(mins: nat)
    ensures (GetVt(mins) < 256 && Minutes(GetVt(mins)) <= mins + 5) <==>
            (mins < 1470 || 2880 <= mins < 44640 || 50400 <= mins < 645120)
    ensures mins < 720 ==> Minutes(GetVt(mins)) - 5 <= mins < Minutes(GetVt(mins))
    ensures 720 <= mins < 1470 ==> Minutes(GetVt(mins)) <= mins < Minutes(GetVt(mins)) + 30
    ensures 2880 <= mins < 44640 ==> Minutes(GetVt(mins)) <= mins < Minutes(GetVt(mins)) + 1440
    ensures 50400 <= mins < 645120 ==> Minutes(GetVt(mins)) <= mins < Minutes(GetVt(mins)) + 10080
  {
  }

  function Plain(nbr: seq<octet>): seq<octet> {
    if nbr != [] && nbr[0] == PLUS then nbr[1..] else nbr
  }

  function TypeOf(nbr: seq<octet>): octet {
    if nbr != [] && nbr[0] == PLUS then INTERNATIONAL else NATIONAL
  }

  /** The service-centre field: a length of 0, or length, type and semi-octets. */
  function CentreField(sc: Option<seq<octet>>): seq<octet>
    requires sc.Some? ==> Digits(Plain(sc.value))
  {
    match sc
    case None => [0]
    case Some(n) => var d := SemiOctets(Plain(n)); [(1 + |d|) % 256, TypeOf(n)] + d
  }

  /** The octets before the recipient's number, and those between it and the user data. */
  function Head(nbr: seq<octet>): seq<octet> {
    [0x11, 0, |Plain(nbr)| % 256, TypeOf(nbr)]
  }

  function Middle(msg: seq<octet>): seq<octet> {
    [0, 0, GetVt(1 * 60 * 24) % 256, |msg| % 256]
  }

  /** The transport unit proper, which follows the service-centre field. */
  function Tpdu(nbr: seq<octet>, msg: seq<octet>): seq<octet>
    requires Digits(Plain(nbr))
  {
    Head(nbr) + SemiOctets(Plain(nbr)) + Middle(msg) + UserData(msg)
  }

  /** NULL, behaviour that C does not define (copying from a NULL pack7 result), or the octets. */
  datatype Result = Null | Undefined | Pdu(octets: seq<octet>)

  /** `xgsm_create_PDU`, which also fits the buffer it allocates. */
  method CreatePdu(nbr: seq<octet>, sc: Option<seq<octet>>, msg: seq<octet>) returns (r: Result)
    ensures r.Null? <==> !(Digits(Plain(nbr)) && (sc.Some? ==> Digits(Plain(sc.value))))
    ensures r.Undefined? <==> !r.Null? && !SevenBit(msg)
    ensures r.Pdu? ==> r.octets == CentreField(sc) + Tpdu(nbr, msg)
    ensures r.Pdu? ==> |r.octets| <= 256 + |nbr| + 2 * |msg| + if sc.Some? then 2 + |sc.value| else 0
  {
    var resp: seq<octet> := [0];
    if sc.Some? {
      var encd := CodeNumber(Plain(sc.value));
      if encd.None? {
        return Null;
      }
      resp := [(1 + |encd.value|) % 256, TypeOf(sc.value)] + encd.value;
    }
    var encd := CodeNumber(Plain(nbr));
    if encd.None? {
      return Null;
    }
    ghost var centre := resp;
    resp := resp + [0x11, 0, |Plain(nbr)| % 256, TypeOf(nbr)];
    resp := resp + encd.value;
    resp := resp + [0, 0, GetVt(1 * 60 * 24) % 256, |msg| % 256];
    var packed := Pack7(msg);
    if packed.None? {
      return Undefined;
    }
    resp := resp + packed.value;
    Reassociate(centre, Head(nbr), encd.value, Middle(msg), packed.value);
    r := Pdu(resp);
  }

  lemma Reassociate<T>(a: seq<T>, b: seq<T>, c: seq<T>, d: seq<T>, e: seq<T>)
    ensures a + b + c + d + e == a + (b + c + d + e)
  {
  }

  /** A decoded SMS-SUBMIT. */
  datatype Submit = Submit(centre: Option<(octet, seq<octet>)>, mr: octet, toa: octet, da: seq<octet>,
                           pid: octet, dcs: octet, vp: octet, msg: seq<octet>)

  /** A parser from the standard: sections 9.1.2.5 and 9.2.2.2 of 3GPP TS 23.040, for a relative validity period and
      the data coding scheme of the 7-bit default alphabet. */
  function Parse(o: seq<octet>): Option<Submit> {
    if o == [] then None
    else
      var l: nat := o[0];
      if |o| < 1 + l then None
      else ParseTpdu(o[1 + l..], if l == 0 then None else Some((o[1], FromSemiOctets(o[2..1 + l]))))
  }

  function ParseTpdu(p: seq<octet>, centre: Option<(octet, seq<octet>)>): Option<Submit> {
    if |p| < 4 || p[0] != 0x11 then None
    else
      var n: nat := p[2];
      var k := (n + 1) / 2;
      if |p| < 8 + k then None
      else
        var da, q := FromSemiOctets(p[4..4 + k]), p[4 + k..];
        var len: nat := q[3];
        if |da| != n || q[1] != 0 || |q| - 4 != (7 * len + 7) / 8 then None
        else Some(Submit(centre, p[1], p[3], da, q[0], q[1], q[2], Septets(Value256(q[4..]), len)))
  }

  lemma {:induction false} ValueOfOctets(v: nat, len: nat)
    requires v < One(8 * len)
    ensures Value256(OctetsOf(v, len)) == v
  {
    if len > 0 {
      OneAdd(8, 8 * (len - 1));
      assert One(8) == 256;
      ValueOfOctets(v / 256, len - 1);
    } else {
      assert One(0) == 1;
    }
  }

  lemma {:induction false} Value128Bound(msg: seq<octet>)
    requires SevenBit(msg)
    ensures Value128(msg) < One(7 * |msg|)
  {
    if msg == [] {
      assert One(0) == 1;
    } else {
      Value128Bound(msg[1..]);
      OneAdd(7, 7 * |msg[1..]|);
      assert One(7) == 128;
    }
  }

  lemma {:induction false} OneMonotone(a: nat, b: nat)
    requires a <= b
    ensures One(a) <= One(b)
  {
    if a < b { OneMonotone(a, b - 1); }
  }

  /** The user data gives the message back. */
  lemma {:induction false} UserDataRoundTrip(msg: seq<octet>)
    requires SevenBit(msg)
    ensures Septets(Value256(UserData(msg)), |msg|) == msg
  {
    var len := (7 * |msg| + 7) / 8;
    Value128Bound(msg);
    OneMonotone(7 * |msg|, 8 * len);
    ValueOfOctets(Value128(msg), len);
    SeptetsOfValue(msg);
  }

  /** What the parser reads from a head, an address, a middle part and user data of matching lengths. */
  lemma {:induction false} ParseParts(h: seq<octet>, d: seq<octet>, f: seq<octet>, u: seq<octet>,
                                      centre: Option<(octet, seq<octet>)>)
    requires |h| == 4 && |f| == 4 && h[0] == 0x11 && f[1] == 0
    requires |FromSemiOctets(d)| as int == h[2] as int && |d| as int == (h[2] as int + 1) / 2
    requires |u| as int == (7 * (f[3] as int) + 7) / 8
    ensures ParseTpdu(h + d + f + u, centre) ==
            Some(Submit(centre, h[1], h[3], FromSemiOctets(d), f[0], f[1], f[2], Septets(Value256(u), f[3])))
  {
    var p := h + d + f + u;
    assert p[4..4 + |d|] == d;
    var q := p[4 + |d|..];
    assert q == f + u;
    assert q[4..] == u;
  }

  lemma LengthOctets(nbr: seq<octet>, msg: seq<octet>)
    requires |Plain(nbr)| <= 255 && |msg| <= 255
    ensures Head(nbr)[2] as int == |Plain(nbr)| && Middle(msg)[3] as int == |msg|
  {
  }

  lemma {:induction false} TpduRoundTrip(nbr: seq<octet>, msg: seq<octet>, centre: Option<(octet, seq<octet>)>)
    requires Digits(Plain(nbr)) && SevenBit(msg) && |Plain(nbr)| <= 255 && |msg| <= 255
    ensures ParseTpdu(Tpdu(nbr, msg), centre) ==
            Some(Submit(centre, 0, TypeOf(nbr), Plain(nbr), 0, 0, GetVt(1 * 60 * 24) % 256, msg))
  {
    SemiOctetsRoundTrip(Plain(nbr));
    UserDataRoundTrip(msg);
    LengthOctets(nbr, msg);
    ParseParts(Head(nbr), SemiOctets(Plain(nbr)), Middle(msg), UserData(msg), centre);
  }

  /** The first octet of the service-centre field counts the others. */
  lemma CentreFieldLength(sc: Option<seq<octet>>)
    requires sc.Some? ==> Digits(Plain(sc.value)) && |Plain(sc.value)| <= 508
    ensures CentreField(sc) != [] && CentreField(sc)[0] as int == |CentreField(sc)| - 1
  {
  }

  lemma {:induction false} ParseField(c: seq<octet>, t: seq<octet>)
    requires c != [] && c[0] as int == |c| - 1
    ensures Parse(c + t) == ParseTpdu(t, if |c| == 1 then None else Some((c[1], FromSemiOctets(c[2..]))))
  {
    var o := c + t;
    assert o[|c|..] == t;
    assert |c| > 1 ==> o[2..|c|] == c[2..];
  }

  /** A message as the parser reads it. */
  function Sent(nbr: seq<octet>, sc: Option<seq<octet>>, msg: seq<octet>): Submit {
    Submit(Centre(sc), 0, TypeOf(nbr), Plain(nbr), 0, 0, GetVt(1 * 60 * 24) % 256, msg)
  }

  function Centre(sc: Option<seq<octet>>): Option<(octet, seq<octet>)> {
    if sc.None? then None else Some((TypeOf(sc.value), Plain(sc.value)))
  }

  /** All lengths fit the octets that hold them. */
  ghost predicate LengthsFit(nbr: seq<octet>, sc: Option<seq<octet>>, msg: seq<octet>) {
    |Plain(nbr)| <= 255 && |msg| <= 255 && (sc.Some? ==> |Plain(sc.value)| <= 508)
  }

  /** The parser inverts `xgsm_create_PDU` for all digit numbers and 7-bit messages whose lengths fit an octet. */
  lemma {:induction false} PduRoundTrip(nbr: seq<octet>, sc: Option<seq<octet>>, msg: seq<octet>)
    requires Digits(Plain(nbr)) && (sc.Some? ==> Digits(Plain(sc.value))) && SevenBit(msg) && LengthsFit(nbr, sc, msg)
    ensures Parse(CentreField(sc) + Tpdu(nbr, msg)) == Some(Sent(nbr, sc, msg))
  {
    var c := CentreField(sc);
    CentreFieldLength(sc);
    ParseField(c, Tpdu(nbr, msg));
    if sc.Some? {
      SemiOctetsRoundTrip(Plain(sc.value));
      assert c[2..] == SemiOctets(Plain(sc.value));
    }
    TpduRoundTrip(nbr, msg, Centre(sc));
  }

  /** How a number is written: its digits alone, or behind a plus sign, and the octet for that type of number. */
  ghost predicate Written(nbr: seq<octet>, digits: seq<octet>, toa: octet) {
    && (forall i :: 0 <= i < |digits| ==> 48 <= digits[i] <= 57)
    && ((toa == 129 && nbr == digits) || (toa == 145 && nbr == [43] + digits))
  }

  ghost predicate IsNumber(nbr: seq<octet>) {
    exists digits, toa :: Written(nbr, digits, toa)
  }

  /** The same of a service centre, with digits that fit its length octet; there may be none. */
  ghost predicate CentreWritten(sc: Option<seq<octet>>, centre: Option<(octet, seq<octet>)>) {
    if sc.None? then centre.None?
    else centre.Some? && Written(sc.value, centre.value.1, centre.value.0) && |centre.value.1| <= 508
  }

  lemma WrittenIsPlain(nbr: seq<octet>, digits: seq<octet>, toa: octet)
    requires Written(nbr, digits, toa)
    ensures Plain(nbr) == digits && TypeOf(nbr) == toa && Digits(digits)
  {
  }

  lemma NumberHasDigits(nbr: seq<octet>)
    ensures IsNumber(nbr) <==> Digits(Plain(nbr))
  {
    if Digits(Plain(nbr)) {
      assert nbr == Plain(nbr) || nbr == [43] + Plain(nbr);
      assert Written(nbr, Plain(nbr), TypeOf(nbr));
    }
    if digits, toa :| Written(nbr, digits, toa) {
      WrittenIsPlain(nbr, digits, toa);
    }
  }

  /** Numbers and message as written, with lengths that fit their octets. */
  ghost predicate AsWritten(nbr: seq<octet>, sc: Option<seq<octet>>, msg: seq<octet>,
                            digits: seq<octet>, toa: octet, centre: Option<(octet, seq<octet>)>) {
    Written(nbr, digits, toa) && CentreWritten(sc, centre) && |digits| <= 255 && |msg| <= 255
  }

  lemma SentAsWritten(nbr: seq<octet>, sc: Option<seq<octet>>, msg: seq<octet>,
                      digits: seq<octet>, toa: octet, centre: Option<(octet, seq<octet>)>)
    requires AsWritten(nbr, sc, msg, digits, toa, centre)
    ensures Digits(Plain(nbr)) && (sc.Some? ==> Digits(Plain(sc.value))) && LengthsFit(nbr, sc, msg)
    ensures Sent(nbr, sc, msg) == Submit(centre, 0, toa, digits, 0, 0, 167, msg)
  {
    WrittenIsPlain(nbr, digits, toa);
    if sc.Some? { WrittenIsPlain(sc.value, centre.value.1, centre.value.0); }
  }

  /** In terms of what is written, not of how it is taken apart: the parser gives back the digits of both numbers, type
      129 for digits alone and 145 behind a plus sign, the code 167 of a day, and the message. */
  lemma {:induction false} WrittenRoundTrip(nbr: seq<octet>, sc: Option<seq<octet>>, msg: seq<octet>,
                                            digits: seq<octet>, toa: octet, centre: Option<(octet, seq<octet>)>)
    requires AsWritten(nbr, sc, msg, digits, toa, centre) && SevenBit(msg)
    ensures Digits(Plain(nbr)) && (sc.Some? ==> Digits(Plain(sc.value)))
    ensures Parse(CentreField(sc) + Tpdu(nbr, msg)) == Some(Submit(centre, 0, toa, digits, 0, 0, 167, msg))
    ensures Minutes(167) == 24 * 60
  {
    SentAsWritten(nbr, sc, msg, digits, toa, centre);
    PduRoundTrip(nbr, sc, msg);
  }

  // ---------------------------------------------------------------- hexadecimal

  function HexDigit(v: nat): octet
    requires v < 16
  {
    if v < 10 then 48 + v else 87 + v
  }

  function HexValue(c: octet): (v: Option<nat>)
    ensures v.Some? ==> v.value < 16
  {
    if 48 <= c <= 57 then Some(c - 48)
    else if 97 <= c <= 102 then Some(c - 87)
    else if 65 <= c <= 70 then Some(c - 55)
    else None
  }

  function Hex(data: seq<octet>): seq<octet> {
    if data == [] then [] else [HexDigit(data[0] / 16), HexDigit(data[0] % 16)] + Hex(data[1..])
  }

  lemma {:induction false} HexAppend(a: seq<octet>, b: seq<octet>)
    ensures Hex(a + b) == Hex(a) + Hex(b) && |Hex(a)| == 2 * |a|
  {
    if a == [] {
      assert a + b == b;
    } else {
      HexAppend(a[1..], b);
      assert (a + b)[1..] == a[1..] + b;
    }
  }

  /** "0123456789abcdef" */
  const HEX_DIGITS: seq<octet> := [48, 49, 50, 51, 52, 53, 54, 55, 56, 57, 97, 98, 99, 100, 101, 102]

  /** The digits are the 16 lower-case ones; reading also takes upper-case ones, and nothing else. */
  lemma HexDigitsAre(v: nat, c: octet)
    requires v < 16
    ensures HexDigit(v) == HEX_DIGITS[v]
    ensures HexValue(c) == Some(v) <==> c == HEX_DIGITS[v] || (v >= 10 && c == HEX_DIGITS[v] - 32)
  {
  }

  lemma {:induction false} HexAt(data: seq<octet>, k: nat)
    requires k < |data|
    ensures |Hex(data)| == 2 * |data|
    ensures Hex(data)[2 * k] == HEX_DIGITS[data[k] / 16] && Hex(data)[2 * k + 1] == HEX_DIGITS[data[k] % 16]
  {
    HexDigitsAre(data[k] / 16, 0);
    HexDigitsAre(data[k] % 16, 0);
    HexAppend(data, []);
    if k > 0 {
      HexAt(data[1..], k - 1);
      HexAppend(data[1..], []);
    }
  }

  function FromHex(h: seq<octet>): Option<seq<octet>> {
    if h == [] then Some([])
    else if |h| == 1 then None
    else match (HexValue(h[0]), HexValue(h[1]), FromHex(h[2..]))
      case (Some(a), Some(b), Some(rest)) => Some([16 * a + b] + rest)
      case _ => None
  }

  lemma {:induction false} HexRoundTrip(data: seq<octet>)
    ensures FromHex(Hex(data)) == Some(data)
  {
    if data != [] {
      HexRoundTrip(data[1..]);
      HexDigitValue(data[0] / 16);
      HexDigitValue(data[0] % 16);
      assert Hex(data)[2..] == Hex(data[1..]);
      assert data == [data[0]] + data[1..];
    }
  }

  /** `xgsm_hexdata` */
  method HexData(data: seq<octet>) returns (resp: seq<octet>)
    ensures resp == Hex(data) && |resp| == 2 * |data|
    ensures forall k :: 0 <= k < |data| ==>
              resp[2 * k] == HEX_DIGITS[data[k] / 16] && resp[2 * k + 1] == HEX_DIGITS[data[k] % 16]
  {
    resp := [];
    var k := 0;
    while k < |data|
      invariant 0 <= k <= |data| && resp == Hex(data[..k])
    {
      assert data[..k + 1] == data[..k] + [data[k]];
      HexAppend(data[..k], [data[k]]);
      resp := resp + [HexDigit(data[k] / 16), HexDigit(data[k] % 16)];
      k := k + 1;
    }
    assert data[..k] == data;
    HexAppend(data, []);
    forall k | 0 <= k < |data|
      ensures resp[2 * k] == HEX_DIGITS[data[k] / 16] && resp[2 * k + 1] == HEX_DIGITS[data[k] % 16]
    {
      HexAt(data, k);
    }
  }

  /** `xgsm_CMGS_PDU_length`: `sscanf` with `%2x` reads one or two hexadecimal digits, or fails. */
  function CmgsPduLength(hpdu: seq<octet>): int {
    if hpdu == [] || HexValue(hpdu[0]).None? then -1
    else
      var a := HexValue(hpdu[0]).value;
      var l := if |hpdu| > 1 && HexValue(hpdu[1]).Some? then 16 * a + HexValue(hpdu[1]).value else a;
      |hpdu| / 2 - l - 1
  }

  lemma {:induction false} HexFirst(o: seq<octet>)
    requires o != []
    ensures CmgsPduLength(Hex(o)) == |o| - o[0] - 1
  {
    HexAppend(o, []);
    HexDigitValue(o[0] / 16);
    HexDigitValue(o[0] % 16);
    var h := Hex(o);
    assert h[0] == HexDigit(o[0] / 16) && h[1] == HexDigit(o[0] % 16);
    assert 16 * (o[0] / 16) + o[0] % 16 == o[0] && |h| == 2 * |o|;
  }

  ghost predicate IsHexDigit(c: octet) {
    48 <= c <= 57 || 65 <= c <= 70 || 97 <= c <= 102
  }

  /** What `sscanf` makes of other strings: without a hexadecimal digit in front the length is -1, and a single one
      counts as a number of its own. */
  lemma LengthOfOthers(h: seq<octet>, v: nat)
    requires v < 16
    ensures h == [] || !IsHexDigit(h[0]) ==> CmgsPduLength(h) == -1
    ensures h != [] && h[0] == HEX_DIGITS[v] && (|h| == 1 || !IsHexDigit(h[1])) ==> CmgsPduLength(h) == |h| / 2 - v - 1
  {
    if h != [] { HexDigitsAre(v, h[0]); }
  }

  lemma HexDigitValue(v: nat)
    requires v < 16
    ensures HexValue(HexDigit(v)) == Some(v)
  {
  }

  lemma {:induction false} LengthAfterField(c: seq<octet>, t: seq<octet>)
    requires c != [] && c[0] as int == |c| - 1
    ensures CmgsPduLength(Hex(c + t)) == |t|
  {
    HexFirst(c + t);
  }

  /** The length announced to the modem is that of the transport unit, without the service-centre field (section 4.3 of
      3GPP TS 27.005). */
  lemma {:induction false} LengthIsThatOfTheTpdu(nbr: seq<octet>, sc: Option<seq<octet>>, msg: seq<octet>)
    requires Digits(Plain(nbr)) && (sc.Some? ==> Digits(Plain(sc.value)) && |Plain(sc.value)| <= 508)
    ensures CmgsPduLength(Hex(CentreField(sc) + Tpdu(nbr, msg))) == |Tpdu(nbr, msg)|
  {
    CentreFieldLength(sc);
    LengthAfterField(CentreField(sc), Tpdu(nbr, msg));
  }

  /** What the far end makes of the digits written to the modem. */
  function ReadBack(hpdu: seq<octet>): Option<Submit> {
    match FromHex(hpdu)
    case None => None
    case Some(o) => Parse(o)
  }

  /** `xgsm_create_hexPDU`: what is written to the modem, read back as hexadecimal digits and parsed, is the message,
      its numbers as written and their types; and the announced length is that of what follows the service centre. */
  method CreateHexPdu(nbr: seq<octet>, sc: Option<seq<octet>>, msg: seq<octet>) returns (r: Result)
    ensures r.Null? <==> !(IsNumber(nbr) && (sc.Some? ==> IsNumber(sc.value)))
    ensures r.Undefined? <==> !r.Null? && exists i :: 0 <= i < |msg| && msg[i] >= 128
    ensures forall digits, toa, centre :: r.Pdu? && AsWritten(nbr, sc, msg, digits, toa, centre) ==>
              ReadBack(r.octets) == Some(Submit(centre, 0, toa, digits, 0, 0, 167, msg))
    ensures r.Pdu? ==>
              && FromHex(r.octets).Some? && FromHex(r.octets).value != []
              && CmgsPduLength(r.octets) == |FromHex(r.octets).value| - FromHex(r.octets).value[0] - 1
  {
    NumberHasDigits(nbr);
    if sc.Some? { NumberHasDigits(sc.value); }
    r := CreatePdu(nbr, sc, msg);
    if r.Pdu? {
      ghost var pdu := r.octets;
      var hpdu := HexData(r.octets);
      HexRoundTrip(pdu);
      HexFirst(pdu);
      forall digits, toa, centre | AsWritten(nbr, sc, msg, digits, toa, centre)
        ensures ReadBack(hpdu) == Some(Submit(centre, 0, toa, digits, 0, 0, 167, msg))
      {
        WrittenRoundTrip(nbr, sc, msg, digits, toa, centre);
      }
      r := Pdu(hpdu);
    }
  }
}
