/** The Worker's decoder of ECDSA signatures: DER (Ecdsa-Sig-Value, section 2.2.3 of RFC 3279) to
    the fixed-width form r || s. Reads past the end follow the language: an absent byte compares
    unequal to everything, masks to zero, and turns an offset into not-a-number (`None`). */
module Der {
  type Byte = b: nat | b < 256

  datatype Error = SequenceExpected | IntegerExpected | IntegerOutOfRange

  datatype Result<+T> = Ok(value: T) | Thrown(error: Error)

  datatype Maybe<+T> = Absent | Present(value: T)

  /** An integer field: its content octets as far as they are present, and where reading goes on. */
  datatype Field = Field(content: seq<Byte>, next: Maybe<nat>)

  function At(der: seq<Byte>, offset: Maybe<nat>): Maybe<Byte> {
    if offset.Present? && offset.value < |der| then Present(der[offset.value]) else Absent
  }

  function Clamp(n: nat, limit: nat): nat { if n < limit then n else limit }

  /** `slice`: both ends are clamped to the array. */
  function Slice(der: seq<Byte>, from: nat, to: nat): seq<Byte>
    requires from <= to
  {
    der[Clamp(from, |der|)..Clamp(to, |der|)]
  }

  /** Where the first integer starts: after the tag and a length of one or more octets. */
  function AfterHeader(der: seq<Byte>): nat {
    1 + if |der| > 1 && der[1] >= 0x80 then der[1] - 0x80 + 1 else 1
  }

  function FieldAt(der: seq<Byte>, offset: Maybe<nat>): Maybe<Field> {
    if At(der, offset) != Present(0x02) then Absent
    else
      var start := offset.value + 2;
      match At(der, Present(offset.value + 1))
      case Absent => Present(Field([], Absent))
      case Present(length) => Present(Field(Slice(der, start, start + length), Present(start + length)))
  }

  function Value(v: seq<Byte>): nat {
    if v == [] then 0 else 256 * Value(v[..|v| - 1]) + v[|v| - 1]
  }

  lemma {:induction false} LeadingZero(v: seq<Byte>)
    ensures Value([0] + v) == Value(v)
  {
    if v == [] {
      assert Value([0]) == 256 * Value([]) + 0;
    } else {
      assert ([0] + v)[..|v|] == [0] + v[..|v| - 1];
      LeadingZero(v[..|v| - 1]);
    }
  }

  function StripZeros(v: seq<Byte>): (r: seq<Byte>)
    ensures |r| <= |v|
    ensures r != [] ==> r[0] != 0
    ensures Value(r) == Value(v)
  {
    if v != [] && v[0] == 0 then
      LeadingZero(v[1..]);
      assert v == [0] + v[1..];
      StripZeros(v[1..])
    else v
  }

  function Zeros(n: nat): seq<Byte> { seq(n, _ => 0) }

  function Padded(v: seq<Byte>, size: nat): seq<Byte>
    requires |v| <= size
  {
    Zeros(size - |v|) + v
  }

  function Half(content: seq<Byte>, size: nat): Result<seq<Byte>> {
    if |StripZeros(content)| > size then Thrown(IntegerOutOfRange) else Ok(Padded(StripZeros(content), size))
  }

  /** What the decoder answers, field by field. */
  function Decode(der: seq<Byte>, size: nat): Result<seq<Byte>> {
    if At(der, Present(0)) != Present(0x30) then Thrown(SequenceExpected)
    else
      match FieldAt(der, Present(AfterHeader(der)))
      case Absent => Thrown(IntegerExpected)
      case Present(r) =>
        match Half(r.content, size)
        case Thrown(e) => Thrown(e)
        case Ok(rBytes) =>
          match FieldAt(der, r.next)
          case Absent => Thrown(IntegerExpected)
          case Present(s) =>
            match Half(s.content, size)
            case Thrown(e) => Thrown(e)
            case Ok(sBytes) => Ok(rBytes + sBytes)
  }

  /** The loop that shortens the content while its first octet is zero. */
  method DropZeros(content: seq<Byte>) returns (value: seq<Byte>)
    ensures value == StripZeros(content)
  {
    hide Value;
    value := content;
    while |value| > 0 && value[0] == 0
      invariant StripZeros(value) == StripZeros(content)
    {
      value := value[1..];
    }
  }

  /** One integer: tag, length, content, leading zeros dropped octet by octet, then padded. */
  method ReadInteger(der: seq<Byte>, offset: Maybe<nat>, size: nat) returns (half: Result<seq<Byte>>, next: Maybe<nat>)
    ensures FieldAt(der, offset).Absent? ==> half == Thrown(IntegerExpected)
    ensures FieldAt(der, offset).Present? ==>
      half == Half(FieldAt(der, offset).value.content, size) && next == FieldAt(der, offset).value.next
  {
    hide Value, StripZeros, Padded;
    next := offset;
    if At(der, next) != Present(0x02) {
      return Thrown(IntegerExpected), next;
    }
    next := Present(next.value + 1);
    var length := At(der, next);
    next := Present(next.value + 1);
    var value: seq<Byte> := [];
    if length.Present? {
      value := Slice(der, next.value, next.value + length.value);
      next := Present(next.value + length.value);
    } else {
      next := Absent;
    }
    value := DropZeros(value);
    if |value| > size {
      return Thrown(IntegerOutOfRange), next;
    }
    half := Ok(Padded(value, size));
  }

  method DerToP1363(der: seq<Byte>, size: nat := 32) returns (out: Result<seq<Byte>>)
    ensures out == Decode(der, size)
  {
    hide FieldAt, Half, Value;
    var offset := 0;
    if At(der, Present(offset)) != Present(0x30) {
      return Thrown(SequenceExpected);
    }
    offset := offset + 1;
    var length := At(der, Present(offset));
    offset := offset + if length.Present? && length.value >= 0x80 then length.value - 0x80 + 1 else 1;
    assert offset == AfterHeader(der);
    var r, afterR := ReadInteger(der, Present(offset), size);
    if r.Thrown? {
      return r;
    }
    var s, _ := ReadInteger(der, afterR, size);
    if s.Thrown? {
      return s;
    }
    out := Ok(r.value + s.value);
  }

  // The reference: big-endian values, and the encoder of the standards.

  function Pow256(n: nat): (p: nat)
    ensures p > 0
  {
    if n == 0 then 1 else 256 * Pow256(n - 1)
  }

  lemma {:induction false} PaddingKeepsValue(n: nat, v: seq<Byte>)
    ensures Value(Zeros(n) + v) == Value(v)
  {
    if n == 0 {
      assert Zeros(0) + v == v;
    } else {
      assert Zeros(n) + v == [0] + (Zeros(n - 1) + v);
      LeadingZero(Zeros(n - 1) + v);
      PaddingKeepsValue(n - 1, v);
    }
  }

  lemma {:induction false} ValueBounds(v: seq<Byte>)
    ensures Value(v) < Pow256(|v|)
    ensures v != [] && v[0] != 0 ==> Value(v) >= Pow256(|v| - 1)
  {
    if v != [] {
      ValueBounds(v[..|v| - 1]);
    }
  }

  lemma {:induction false} PowMonotone(m: nat, n: nat)
    requires m <= n
    ensures Pow256(m) <= Pow256(n)
  {
    if m < n {
      PowMonotone(m, n - 1);
    }
  }

  lemma ValueStep(v: seq<Byte>)
    requires v != []
    ensures Value(v) == 256 * Value(v[..|v| - 1]) + v[|v| - 1]
  {
  }

  lemma LowDigit(high: nat, low: nat, n: nat)
    requires low < 256 && n == 256 * high + low
    ensures n % 256 == low && n / 256 == high
  {
  }

  lemma LastOctet(v: seq<Byte>)
    requires v != []
    ensures v[|v| - 1] == Value(v) % 256 && Value(v[..|v| - 1]) == Value(v) / 256
  {
    hide Value;
    ValueStep(v);
    LowDigit(Value(v[..|v| - 1]), v[|v| - 1], Value(v));
  }

  /** Octet strings of one length are determined by their value. */
  lemma {:induction false} ValueInjective(a: seq<Byte>, b: seq<Byte>)
    requires |a| == |b| && Value(a) == Value(b)
    ensures a == b
  {
    if a != [] {
      LastOctet(a);
      LastOctet(b);
      hide Value;
      ValueInjective(a[..|a| - 1], b[..|b| - 1]);
      assert a == a[..|a| - 1] + [a[|a| - 1]];
      assert b == b[..|b| - 1] + [b[|b| - 1]];
    }
  }

  /** A half is accepted exactly when its unsigned value fits `size` octets, and then it is that
      value on exactly `size` octets. */
  lemma HalfKeepsValue(content: seq<Byte>, size: nat)
    ensures Half(content, size).Ok? <==> Value(content) < Pow256(size)
    ensures Half(content, size).Ok? ==>
      |Half(content, size).value| == size && Value(Half(content, size).value) == Value(content)
  {
    var v := StripZeros(content);
    ValueBounds(v);
    if |v| > size {
      PowMonotone(size, |v| - 1);
    } else {
      PowMonotone(|v|, size);
      PaddingKeepsValue(size - |v|, v);
    }
  }

  /** The two integer contents a signature frames, if its tags are where the decoder looks. */
  function Framed(der: seq<Byte>): Maybe<(seq<Byte>, seq<Byte>)> {
    if At(der, Present(0)) != Present(0x30) then Absent
    else
      match FieldAt(der, Present(AfterHeader(der)))
      case Absent => Absent
      case Present(r) =>
        match FieldAt(der, r.next)
        case Absent => Absent
        case Present(s) => Present((r.content, s.content))
  }

  /** Acceptance, exactly: both tags in place and both unsigned values below 256^size. An accepted
      input yields 2 * size octets whose halves carry the same unsigned values. */
  lemma DecodeExactly(der: seq<Byte>, size: nat)
    ensures Decode(der, size).Ok? <==>
      Framed(der).Present? && Value(Framed(der).value.0) < Pow256(size) && Value(Framed(der).value.1) < Pow256(size)
    ensures Decode(der, size).Ok? ==>
      && |Decode(der, size).value| == 2 * size
      && Value(Decode(der, size).value[..size]) == Value(Framed(der).value.0)
      && Value(Decode(der, size).value[size..]) == Value(Framed(der).value.1)
  {
    if Framed(der).Present? {
      HalfKeepsValue(Framed(der).value.0, size);
      HalfKeepsValue(Framed(der).value.1, size);
      if Decode(der, size).Ok? {
        var r, s := Half(Framed(der).value.0, size).value, Half(Framed(der).value.1, size).value;
        assert (r + s)[..size] == r && (r + s)[size..] == s;
      }
    }
  }

  /** The shortest big-endian octets of `n`; one octet for zero. */
  function Minimal(n: nat): (v: seq<Byte>)
    ensures v != [] && Value(v) == n
    ensures n > 0 ==> v[0] != 0
  {
    if n < 256 then
      assert Value([n]) == 256 * Value([]) + n;
      [n]
    else
      assert (Minimal(n / 256) + [n % 256])[..|Minimal(n / 256)|] == Minimal(n / 256);
      Minimal(n / 256) + [n % 256]
  }

  /** Content octets of a non-negative INTEGER (section 8.3 of ITU-T X.690): two's complement, so
      a leading zero octet when the top bit is set. */
  function IntegerContent(n: nat): seq<Byte> {
    if Minimal(n)[0] >= 0x80 then [0] + Minimal(n) else Minimal(n)
  }

  /** Sizes whose signatures need only one length octet; P-256 has 32. */
  const SHORT_FORM := 60

  function IntegerField(content: seq<Byte>): seq<Byte>
    requires |content| < 256
  {
    [0x02, |content|] + content
  }

  function SequenceOf(r: seq<Byte>, s: seq<Byte>): seq<Byte>
    requires 4 + |r| + |s| < 0x80
  {
    [0x30, 4 + |r| + |s|] + (IntegerField(r) + IntegerField(s))
  }

  lemma ContentLength(n: nat, size: nat)
    requires n < Pow256(size)
    ensures 1 <= |IntegerContent(n)| <= size + 1
    ensures Value(IntegerContent(n)) == n
  {
    LeadingZero(Minimal(n));
    if n > 0 && |Minimal(n)| > size {
      ValueBounds(Minimal(n));
      PowMonotone(size, |Minimal(n)| - 1);
    }
  }

  function EncodeSignature(r: nat, s: nat, size: nat): seq<Byte>
    requires size <= SHORT_FORM && r < Pow256(size) && s < Pow256(size)
  {
    ContentLength(r, size);
    ContentLength(s, size);
    SequenceOf(IntegerContent(r), IntegerContent(s))
  }

  /** `n` on exactly `size` octets, most significant first. */
  function BigEndian(n: nat, size: nat): (v: seq<Byte>)
    requires n < Pow256(size)
    ensures |v| == size && Value(v) == n
  {
    if size == 0 then []
    else
      var v := BigEndian(n / 256, size - 1) + [n % 256];
      assert v[..size - 1] == BigEndian(n / 256, size - 1);
      v
  }

  lemma FieldOfContent(before: seq<Byte>, content: seq<Byte>, after: seq<Byte>)
    requires |content| < 256
    ensures FieldAt(before + IntegerField(content) + after, Present(|before|))
      == Present(Field(content, Present(|before| + 2 + |content|)))
  {
    var head: seq<Byte> := before + [0x02, |content|];
    var der := before + IntegerField(content) + after;
    assert der == head + content + after;
    assert der[|before|] == 0x02 && der[|before| + 1] == |content|;
    assert der[|head|..|head| + |content|] == content;
  }

  lemma TwoFieldsAreFramed(r: seq<Byte>, s: seq<Byte>)
    requires 4 + |r| + |s| < 0x80
    ensures Framed(SequenceOf(r, s)) == Present((r, s))
  {
    var header: seq<Byte> := [0x30, 4 + |r| + |s|];
    var first, second := IntegerField(r), IntegerField(s);
    var der := header + first + second;
    assert |first| == 2 + |r|;
    FieldOfContent(header, r, second);
    FieldOfContent(header + first, s, []);
    hide IntegerField, FieldAt;
    assert SequenceOf(r, s) == der == der + [];
    assert der[0] == 0x30 && der[1] == 4 + |r| + |s|;
  }

  /** An encoded signature frames exactly the two contents it was built from. */
  lemma EncodedIsFramed(r: nat, s: nat, size: nat)
    requires size <= SHORT_FORM && r < Pow256(size) && s < Pow256(size)
    ensures Framed(EncodeSignature(r, s, size)) == Present((IntegerContent(r), IntegerContent(s)))
  {
    ContentLength(r, size);
    ContentLength(s, size);
    TwoFieldsAreFramed(IntegerContent(r), IntegerContent(s));
  }

  lemma FramedValuesDecode(der: seq<Byte>, r: nat, s: nat, size: nat)
    requires r < Pow256(size) && s < Pow256(size)
    requires Framed(der).Present? && Value(Framed(der).value.0) == r && Value(Framed(der).value.1) == s
    ensures Decode(der, size) == Ok(BigEndian(r, size) + BigEndian(s, size))
  {
    DecodeExactly(der, size);
    var out := Decode(der, size).value;
    ValueInjective(out[..size], BigEndian(r, size));
    ValueInjective(out[size..], BigEndian(s, size));
    assert out == out[..size] + out[size..];
  }

  /** The round trip: every pair of integers that fit `size` octets (2^256 at the default size),
      encoded by the standards, decodes to exactly its two big-endian forms of that size. */
  lemma DecodeEncoded(r: nat, s: nat, size: nat)
    requires size <= SHORT_FORM && r < Pow256(size) && s < Pow256(size)
    ensures Decode(EncodeSignature(r, s, size), size) == Ok(BigEndian(r, size) + BigEndian(s, size))
  {
    EncodedIsFramed(r, s, size);
    ContentLength(r, size);
    ContentLength(s, size);
    FramedValuesDecode(EncodeSignature(r, s, size), r, s, size);
  }

  /** Distinct signatures stay distinct: the decoder loses nothing on encoded pairs. */
  lemma DecodeSeparates(r: nat, s: nat, r': nat, s': nat, size: nat)
    requires size <= SHORT_FORM && r < Pow256(size) && s < Pow256(size) && r' < Pow256(size) && s' < Pow256(size)
    ensures Decode(EncodeSignature(r, s, size), size) == Decode(EncodeSignature(r', s', size), size)
       <==> r == r' && s == s'
  {
    DecodeEncoded(r, s, size);
    DecodeEncoded(r', s', size);
    assert (BigEndian(r, size) + BigEndian(s, size))[..size] == BigEndian(r, size);
    assert (BigEndian(r', size) + BigEndian(s', size))[..size] == BigEndian(r', size);
    assert (BigEndian(r, size) + BigEndian(s, size))[size..] == BigEndian(s, size);
    assert (BigEndian(r', size) + BigEndian(s', size))[size..] == BigEndian(s', size);
  }

  // Encodings cut short: the decoder does not check that the content is all there.

  /** `n` shifted right by `m` octets. */
  function Shifted(n: nat, m: nat): (r: nat)
    ensures r <= n
  {
    if m == 0 then n else Shifted(n, m - 1) / 256
  }

  /** Dropping the last `m` octets shifts the value by as many. */
  lemma {:induction false} CutValue(v: seq<Byte>, m: nat)
    requires m <= |v|
    ensures Value(v[..|v| - m]) == Shifted(Value(v), m)
  {
    if m == 0 {
      assert v[..|v|] == v;
    } else {
      CutValue(v, m - 1);
      var w := v[..|v| - (m - 1)];
      assert w[..|w| - 1] == v[..|v| - m];
      LastOctet(w);
    }
  }

  /** How many octets of the second integer's content a prefix of `k` octets lacks. */
  function MissingOctets(r: seq<Byte>, s: seq<Byte>, k: nat): nat {
    if k <= |r| + 6 then |s| else if k < |r| + |s| + 6 then |r| + |s| + 6 - k else 0
  }

  lemma PrefixFieldR(r: seq<Byte>, s: seq<Byte>, k: nat)
    requires 4 + |r| + |s| < 0x80 && k <= |SequenceOf(r, s)|
    ensures var f := FieldAt(SequenceOf(r, s)[..k], Present(2));
      && (k >= |r| + 5 ==> f == Present(Field(r, Present(|r| + 4))))
      && (f.Present? && k < |r| + 5 ==> f.value.next == Absent || f.value.next == Present(|r| + 4))
  {
    var whole := SequenceOf(r, s);
    assert whole == [0x30, 4 + |r| + |s|] + IntegerField(r) + IntegerField(s);
    assert whole[2] == 0x02 && whole[3] == |r|;
    if k >= |r| + 5 {
      assert whole[..k][4..4 + |r|] == r;
    }
  }

  lemma PrefixFieldS(r: seq<Byte>, s: seq<Byte>, k: nat)
    requires 4 + |r| + |s| < 0x80 && |r| + 5 <= k <= |SequenceOf(r, s)|
    ensures var f := FieldAt(SequenceOf(r, s)[..k], Present(|r| + 4));
      f.Present? && f.value.content == s[..|s| - MissingOctets(r, s, k)]
  {
    var whole := SequenceOf(r, s);
    var base := |r| + 4;
    assert whole == [0x30, 4 + |r| + |s|] + IntegerField(r) + IntegerField(s);
    assert whole[base] == 0x02 && whole[base + 1] == |s|;
    if k > base + 1 {
      var kept := k - (base + 2);
      assert whole[..k][base + 2..k] == s[..kept];
    }
  }

  /** The first `k` octets of an encoding frame two integers exactly when they reach past the second
      tag; the second one is then what is left of its content. */
  lemma PrefixIsFramed(r: seq<Byte>, s: seq<Byte>, k: nat)
    requires 4 + |r| + |s| < 0x80 && k <= |SequenceOf(r, s)|
    ensures var cut := Framed(SequenceOf(r, s)[..k]);
      && (cut.Present? <==> k >= |r| + 5)
      && (cut.Present? ==> cut.value == (r, s[..|s| - MissingOctets(r, s, k)]))
  {
    var whole := SequenceOf(r, s);
    var cut := whole[..k];
    PrefixFieldR(r, s, k);
    if k >= |r| + 5 {
      PrefixFieldS(r, s, k);
    }
    hide FieldAt;
  }

  /** Exactly which prefixes of an encoded signature are accepted, and as what: those that reach
      past the second tag, with the second integer shifted right by the content octets cut off. */
  lemma PrefixDecodesExactly(r: nat, s: nat, size: nat, k: nat)
    requires size <= SHORT_FORM && r < Pow256(size) && s < Pow256(size)
    requires k <= |EncodeSignature(r, s, size)|
    ensures var kept := Shifted(s, MissingOctets(IntegerContent(r), IntegerContent(s), k));
      var cut := Decode(EncodeSignature(r, s, size)[..k], size);
      && (cut.Ok? <==> k >= |IntegerContent(r)| + 5)
      && kept < Pow256(size)
      && (cut.Ok? ==> cut == Ok(BigEndian(r, size) + BigEndian(kept, size)))
  {
    ContentLength(r, size);
    ContentLength(s, size);
    var a, b := IntegerContent(r), IntegerContent(s);
    var m := MissingOctets(a, b, k);
    CutValue(b, m);
    PrefixIsFramed(a, b, k);
    hide Framed, IntegerContent, Value, MissingOctets, SequenceOf;
    var der := EncodeSignature(r, s, size)[..k];
    if k >= |a| + 5 {
      FramedValuesDecode(der, r, Shifted(s, m), size);
    } else {
      DecodeExactly(der, size);
    }
  }
}
