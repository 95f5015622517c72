/** MPEG-4 descriptors: a printer that wraps an audio config for storage, and the
    walk that recovers it from what was printed. Lengths follow the
    expandable encoding of ISO/IEC 14496-1 section 8.3.3. */
module Descriptors {
  import opened Common

  type Byte = b: int | 0 <= b < 256

  const ES: Byte := 3
  const DECODER_CONFIG: Byte := 4
  const SPECIFIC_INFO: Byte := 5
  const ENCODE_BIT_RATE := 192000
  const FOUR_BYTES := 0x1000_0000
  const FIVE_BYTES := 0x8_0000_0000

  // ---------------------------------------------------------------------
  // Lengths.
  // ---------------------------------------------------------------------

  /** Base-128 digits, every one with the high bit that says more follow. */
  function More(v: nat): seq<Byte> {
    if v == 0 then [] else More(v / 128) + [v % 128 + 128]
  }

  function LenBytes(len: nat): seq<Byte> { More(len / 128) + [len % 128] }

  /** A length and the position after it, from at most `left` bytes at `pos`. */
  function ReadLen(buf: seq<Byte>, pos: nat, left: nat, len: nat): (r: Option<(nat, nat)>)
    ensures r.Some? ==> pos < r.value.1 <= |buf|
    decreases left
  {
    if left == 0 || pos >= |buf| then None
    else if buf[pos] < 128 then Some((len * 128 + buf[pos], pos + 1))
    else ReadLen(buf, pos + 1, left - 1, len * 128 + buf[pos] % 128)
  }

  ghost predicate At(buf: seq<Byte>, pos: nat, piece: seq<Byte>) {
    pos + |piece| <= |buf| && buf[pos..pos + |piece|] == piece
  }

  /** `bytes` is a length of at most four bytes that reads as `len`; the encoding
      allows leading zero digits, which a codec's own cookie has. */
  ghost predicate Encodes(bytes: seq<Byte>, len: nat) {
    ReadLen(bytes, 0, 4, 0) == Some((len, |bytes|))
  }

  lemma {:induction false} ReadsFromAnywhere(buf: seq<Byte>, pos: nat, bytes: seq<Byte>, at: nat, left: nat, acc: nat)
    requires At(buf, pos, bytes) && at <= |bytes|
    requires ReadLen(bytes, at, left, acc).Some?
    ensures var (len, end) := ReadLen(bytes, at, left, acc).value;
            end <= |bytes| && ReadLen(buf, pos + at, left, acc) == Some((len, pos + end))
    decreases left
  {
    assert bytes[at] == buf[pos..pos + |bytes|][at] == buf[pos + at];
    if bytes[at] >= 128 {
      ReadsFromAnywhere(buf, pos, bytes, at + 1, left - 1, acc * 128 + bytes[at] % 128);
    }
  }

  lemma {:induction false} ReadsMore(bytes: seq<Byte>, v: nat, left: nat)
    requires At(bytes, 0, More(v)) && |More(v)| <= left
    ensures ReadLen(bytes, 0, left, 0) == ReadLen(bytes, |More(v)|, left - |More(v)|, v)
  {
    if v > 0 {
      var k := |More(v / 128)|;
      var more := bytes[0..k + 1];
      assert more[..k] == More(v / 128) && more[k] == v % 128 + 128;
      assert bytes[0..k] == more[..k];
      ReadsMore(bytes, v / 128, left);
    }
  }

  lemma {:induction false} NeverEnds(bytes: seq<Byte>, pos: nat, left: nat, len: nat)
    requires pos + left <= |bytes| && forall k | pos <= k < pos + left :: bytes[k] >= 128
    ensures ReadLen(bytes, pos, left, len) == None
    decreases left
  {
    if left > 0 {
      NeverEnds(bytes, pos + 1, left - 1, len * 128 + bytes[pos] % 128);
    }
  }

  function Power128(n: nat): (p: nat)
    ensures p >= 1
  {
    if n == 0 then 1 else 128 * Power128(n - 1)
  }

  lemma {:induction false} MoreFits(v: nat, n: nat)
    ensures |More(v)| <= n <==> v < Power128(n)
  {
    if v > 0 && n > 0 {
      MoreFits(v / 128, n - 1);
    }
  }

  lemma {:induction false} MoreGoesOn(v: nat)
    ensures forall k | 0 <= k < |More(v)| :: More(v)[k] >= 128
  {
    if v > 0 {
      MoreGoesOn(v / 128);
    }
  }

  lemma Powers()
    ensures Power128(3) == FOUR_BYTES / 128 && Power128(4) == FIVE_BYTES / 128
  {
  }

  /** The printed length reads back, exactly for lengths under 2^28: a fifth byte
      is more than the reader takes. */
  lemma LenReadsBack(len: nat)
    ensures Encodes(LenBytes(len), len) <==> len < FOUR_BYTES
    ensures len >= FOUR_BYTES ==> ReadLen(LenBytes(len), 0, 4, 0) == None
  {
    var bytes, v := LenBytes(len), len / 128;
    Powers();
    MoreFits(v, 3);
    MoreGoesOn(v);
    assert bytes[0..|More(v)|] == More(v);
    if len < FOUR_BYTES {
      ReadsMore(bytes, v, 4);
    } else {
      forall k | 0 <= k < 4 ensures bytes[k] >= 128 {
        assert bytes[k] == More(v)[k];
      }
      NeverEnds(bytes, 0, 4, 0);
    }
  }

  /** `n` digits past `acc` read as a number under `(acc + 1) * 128^n`. */
  lemma {:induction false} ReadIsBounded(bytes: seq<Byte>, pos: nat, left: nat, acc: nat)
    requires ReadLen(bytes, pos, left, acc).Some?
    ensures var (len, end) := ReadLen(bytes, pos, left, acc).value;
            pos < end <= |bytes| && len < (acc + 1) * Power128(end - pos)
    decreases left
  {
    if bytes[pos] < 128 {
      assert Power128(1) == 128;
      OneMoreDigit(acc, bytes[pos], 1);
    } else {
      var digit := bytes[pos] % 128;
      ReadIsBounded(bytes, pos + 1, left - 1, acc * 128 + digit);
      var n := ReadLen(bytes, pos, left, acc).value.1 - pos;
      OneMoreDigit(acc, digit, Power128(n - 1));
      assert Power128(n) == 128 * Power128(n - 1);
    }
  }

  lemma OneMoreDigit(acc: nat, digit: nat, power: nat)
    requires digit < 128
    ensures (acc * 128 + digit + 1) * power <= (acc + 1) * (128 * power)
  {
    ScaleUp(acc * 128 + digit + 1, (acc + 1) * 128, power);
  }

  lemma ScaleUp(a: nat, b: nat, c: nat)
    requires a <= b
    ensures a * c <= b * c
  {
  }

  /** No shorter length reads as the same number. */
  lemma LenIsMinimal(bytes: seq<Byte>, len: nat)
    requires Encodes(bytes, len)
    ensures |LenBytes(len)| <= |bytes|
  {
    ReadIsBounded(bytes, 0, 4, 0);
    MoreFits(len / 128, |bytes| - 1);
  }

  type Digit = d: int | 0 <= d < 128

  function High(d: Digit): Byte { d as int + 128 }

  /** Stacked low digits first, printed from the last, each saying more follow. */
  function Printed(stack: seq<Digit>): seq<Byte> {
    if stack == [] then [] else Printed(stack[1..]) + [High(stack[0])]
  }

  lemma {:induction false} PrintedPush(stack: seq<Digit>, d: Digit)
    ensures Printed(stack + [d]) == [High(d)] + Printed(stack)
    ensures |Printed(stack)| == |stack|
  {
    if stack == [] {
      assert [d][1..] == [];
    } else {
      PrintedPush(stack[1..], d);
      assert (stack + [d])[1..] == stack[1..] + [d];
    }
  }

  method PushDescLen(buf: seq<Byte>, len: nat) returns (longer: seq<Byte>)
    requires len < FIVE_BYTES
    ensures longer == buf + LenBytes(len)
  {
    var stack := StackDigits(len);
    longer := buf;
    for i := |stack| downto 0
      invariant longer == buf + (if i == 0 then LenBytes(len) else Printed(stack[i..]))
    {
      assert i + 1 < |stack| ==> stack[i..][1..] == stack[i + 1..];
      if i != 0 {
        assert stack[i..] == [stack[i]] + stack[i + 1..];
        longer := longer + [High(stack[i])];
      } else {
        longer := longer + [stack[i]];
      }
    }
  }

  /** The base-128 digits, lowest first, in the five the stack holds. */
  method StackDigits(len: nat) returns (digits: seq<Digit>)
    requires len < FIVE_BYTES
    ensures 1 <= |digits| <= 5
    ensures LenBytes(len) == Printed(digits[1..]) + [digits[0]]
  {
    var stack := new Digit[5](_ => 0);
    var n, v := 0, len;
    Powers();
    MoreFits(len / 128, 4);
    assert Printed([]) == [] && More(0) == [];
    hide Printed, More;
    while n == 0 || v != 0
      invariant n == 0 ==> v == len
      invariant n <= 5
      invariant n > 0 ==> stack[0] == len % 128 && n + |More(v)| == 1 + |More(len / 128)|
      invariant n > 0 ==> More(len / 128) == More(v) + Printed(stack[1..n])
      decreases if n == 0 then 1 else 0, v
    {
      if n > 0 {
        PrintedPush(stack[1..n], v % 128);
        DigitMoves(v, Printed(stack[1..n]));
      }
      stack[n] := v % 128;
      assert n > 0 ==> stack[1..n + 1] == stack[1..n] + [v % 128];
      n := n + 1;
      v := v / 128;
    }
    digits := stack[..n];
    assert digits[1..] == stack[1..n];
  }

  lemma DigitMoves(v: nat, printed: seq<Byte>)
    requires v > 0
    ensures More(v) + printed == More(v / 128) + ([High(v % 128)] + printed)
    ensures |More(v)| == |More(v / 128)| + 1
  {
  }

  // ---------------------------------------------------------------------
  // The walk.
  // ---------------------------------------------------------------------

  const ES_FIXED := 3
  const CONFIG_FIXED := 13

  /** The first descriptor with `tag` from `pos` on: into an ES descriptor and a
      decoder config past their fixed fields, over anything else whole. An ES
      descriptor with optional fields is refused, not guessed. */
  function Walk(buf: seq<Byte>, pos: nat, tag: Byte): Option<seq<Byte>>
    decreases |buf| - pos
  {
    if pos >= |buf| then None
    else
      match ReadLen(buf, pos + 1, 4, 0)
      case None => None
      case Some((len, body)) =>
        var end := if body + len < |buf| then body + len else |buf|;
        if buf[pos] == tag then Some(buf[body..end])
        else if buf[pos] == ES then
          if body + 2 >= |buf| || buf[body + 2] >= 32 then None else Walk(buf, body + ES_FIXED, tag)
        else if buf[pos] == DECODER_CONFIG then Walk(buf, body + CONFIG_FIXED, tag)
        else Walk(buf, end, tag)
  }

  method FindDescriptor(buf: seq<Byte>, tag: Byte) returns (payload: Option<seq<Byte>>)
    ensures payload == Walk(buf, 0, tag)
  {
    var pos := 0;
    while pos < |buf|
      invariant Walk(buf, pos, tag) == Walk(buf, 0, tag)
      decreases |buf| - pos
    {
      var t := buf[pos];
      var read := ReadLen(buf, pos + 1, 4, 0);
      if read.None? {
        return None;
      }
      var (len, body) := read.value;
      var end := if body + len < |buf| then body + len else |buf|;
      if t == tag {
        return Some(buf[body..end]);
      } else if t == ES {
        if body + 2 >= |buf| || buf[body + 2] >= 32 {
          return None;
        }
        pos := body + ES_FIXED;
      } else if t == DECODER_CONFIG {
        pos := body + CONFIG_FIXED;
      } else {
        pos := end;
      }
    }
    return None;
  }

  /** A descriptor the walk steps over. */
  datatype Skipped = Skipped(tag: Byte, length: seq<Byte>, payload: seq<Byte>) {
    function Bytes(): seq<Byte> { [tag] + length + payload }

    ghost predicate Plain() {
      tag != ES && tag != DECODER_CONFIG && tag != SPECIFIC_INFO && Encodes(length, |payload|)
    }
  }

  function Flat(ds: seq<Skipped>): seq<Byte> {
    if ds == [] then [] else ds[0].Bytes() + Flat(ds[1..])
  }

  ghost predicate AllPlain(ds: seq<Skipped>) { forall i | 0 <= i < |ds| :: ds[i].Plain() }

  ghost predicate IsLength(bytes: seq<Byte>) { exists len :: Encodes(bytes, len) }

  /** The descriptors as a codec nests them: an ES descriptor, a decoder config
      within it and the specific info within that, any others between, and the
      lengths in any encoding. */
  datatype Hierarchy = Hierarchy(
    esLength: seq<Byte>, esFixed: seq<Byte>, beforeConfig: seq<Skipped>,
    configLength: seq<Byte>, configFixed: seq<Byte>, beforeInfo: seq<Skipped>,
    infoLength: seq<Byte>, asc: seq<Byte>, tail: seq<Byte>)
  {
    function InfoBytes(): seq<Byte> { [SPECIFIC_INFO] + infoLength + asc + tail }

    function ConfigBytes(): seq<Byte> {
      [DECODER_CONFIG] + configLength + configFixed + (Flat(beforeInfo) + InfoBytes())
    }

    function Bytes(): seq<Byte> {
      [ES] + esLength + esFixed + (Flat(beforeConfig) + ConfigBytes())
    }

    ghost predicate Sound() {
      && IsLength(esLength) && |esFixed| == ES_FIXED && AllPlain(beforeConfig)
      && IsLength(configLength) && |configFixed| == CONFIG_FIXED && AllPlain(beforeInfo)
      && Encodes(infoLength, |asc|)
    }
  }

  lemma AtSplits(buf: seq<Byte>, pos: nat, a: seq<Byte>, b: seq<Byte>)
    requires At(buf, pos, a + b)
    ensures At(buf, pos, a) && At(buf, pos + |a|, b)
  {
    assert a == (a + b)[..|a|] && b == (a + b)[|a|..];
  }

  lemma HeaderReads(buf: seq<Byte>, pos: nat, tag: Byte, length: seq<Byte>, len: nat)
    requires At(buf, pos, [tag] + length) && Encodes(length, len)
    ensures pos < |buf| && buf[pos] == tag
    ensures ReadLen(buf, pos + 1, 4, 0) == Some((len, pos + 1 + |length|))
  {
    AtSplits(buf, pos, [tag], length);
    assert buf[pos] == buf[pos..pos + 1][0];
    ReadsFromAnywhere(buf, pos + 1, length, 0, 4, 0);
  }

  lemma {:induction false} SkipsPlain(buf: seq<Byte>, pos: nat, ds: seq<Skipped>)
    requires At(buf, pos, Flat(ds)) && AllPlain(ds)
    ensures Walk(buf, pos, SPECIFIC_INFO) == Walk(buf, pos + |Flat(ds)|, SPECIFIC_INFO)
    decreases |ds|
  {
    hide At, Walk, Encodes, ReadLen;
    if ds != [] {
      var d := ds[0];
      AtSplits(buf, pos, d.Bytes(), Flat(ds[1..]));
      AtSplits(buf, pos, [d.tag] + d.length, d.payload);
      HeaderReads(buf, pos, d.tag, d.length, |d.payload|);
      AtFits(buf, pos + 1 + |d.length|, d.payload);
      WalkSteps(buf, pos, |d.payload|, pos + 1 + |d.length|);
      SkipsPlain(buf, pos + |d.Bytes()|, ds[1..]);
    }
  }

  /** One turn of the walk at a descriptor whose length reads. */
  lemma WalkSteps(buf: seq<Byte>, pos: nat, len: nat, body: nat)
    requires pos < |buf| && ReadLen(buf, pos + 1, 4, 0) == Some((len, body)) && body + len <= |buf|
    requires buf[pos] != ES && buf[pos] != DECODER_CONFIG
    ensures Walk(buf, pos, SPECIFIC_INFO)
         == if buf[pos] == SPECIFIC_INFO then Some(buf[body..body + len])
            else Walk(buf, body + len, SPECIFIC_INFO)
  {
  }

  lemma WalkDescends(buf: seq<Byte>, pos: nat, len: nat, body: nat)
    requires pos < |buf| && ReadLen(buf, pos + 1, 4, 0) == Some((len, body)) && body + 2 < |buf|
    ensures buf[pos] == ES ==>
              Walk(buf, pos, SPECIFIC_INFO)
              == if buf[body + 2] >= 32 then None else Walk(buf, body + ES_FIXED, SPECIFIC_INFO)
    ensures buf[pos] == DECODER_CONFIG ==>
              Walk(buf, pos, SPECIFIC_INFO) == Walk(buf, body + CONFIG_FIXED, SPECIFIC_INFO)
  {
  }

  lemma AtFits(buf: seq<Byte>, pos: nat, piece: seq<Byte>)
    requires At(buf, pos, piece)
    ensures pos + |piece| <= |buf| && buf[pos..pos + |piece|] == piece
  {
  }

  /** A container's header, its fixed fields and what follows them. */
  lemma Opens(buf: seq<Byte>, pos: nat, tag: Byte, length: seq<Byte>, len: nat, fixed: seq<Byte>, rest: seq<Byte>)
    requires At(buf, pos, [tag] + length + fixed + rest) && Encodes(length, len)
    ensures pos < |buf| && buf[pos] == tag
    ensures ReadLen(buf, pos + 1, 4, 0) == Some((len, pos + 1 + |length|))
    ensures At(buf, pos + 1 + |length|, fixed) && At(buf, pos + 1 + |length| + |fixed|, rest)
  {
    hide At, Encodes, ReadLen;
    AtSplits(buf, pos, [tag] + length + fixed, rest);
    AtSplits(buf, pos, [tag] + length, fixed);
    HeaderReads(buf, pos, tag, length, len);
  }

  /** Past a container's fixed fields. */
  lemma Enters(buf: seq<Byte>, pos: nat, tag: Byte, length: seq<Byte>, fixed: seq<Byte>, rest: seq<Byte>)
    requires At(buf, pos, [tag] + length + fixed + rest) && IsLength(length)
    requires (tag == ES && |fixed| == ES_FIXED) || (tag == DECODER_CONFIG && |fixed| == CONFIG_FIXED)
    ensures var next := pos + 1 + |length| + |fixed|;
            && At(buf, next, rest)
            && Walk(buf, pos, SPECIFIC_INFO)
               == if tag == ES && fixed[2] >= 32 then None else Walk(buf, next, SPECIFIC_INFO)
  {
    var len :| Encodes(length, len);
    hide At, Walk, Encodes, ReadLen;
    Opens(buf, pos, tag, length, len, fixed, rest);
    FixedField(buf, pos + 1 + |length|, fixed);
    WalkDescends(buf, pos, len, pos + 1 + |length|);
  }

  /** Past them and the plain descriptors after them. */
  lemma Descends(buf: seq<Byte>, pos: nat, tag: Byte, length: seq<Byte>, fixed: seq<Byte>,
                 between: seq<Skipped>, rest: seq<Byte>)
    requires At(buf, pos, [tag] + length + fixed + (Flat(between) + rest)) && IsLength(length)
    requires (tag == ES && |fixed| == ES_FIXED) || (tag == DECODER_CONFIG && |fixed| == CONFIG_FIXED)
    requires AllPlain(between)
    ensures var next := pos + 1 + |length| + |fixed| + |Flat(between)|;
            && At(buf, next, rest)
            && Walk(buf, pos, SPECIFIC_INFO)
               == if tag == ES && fixed[2] >= 32 then None else Walk(buf, next, SPECIFIC_INFO)
  {
    hide At, Walk, IsLength, Flat, AllPlain;
    Enters(buf, pos, tag, length, fixed, Flat(between) + rest);
    AtSplits(buf, pos + 1 + |length| + |fixed|, Flat(between), rest);
    SkipsPlain(buf, pos + 1 + |length| + |fixed|, between);
  }

  lemma FixedField(buf: seq<Byte>, body: nat, fixed: seq<Byte>)
    requires At(buf, body, fixed) && |fixed| >= ES_FIXED
    ensures body + 2 < |buf| && buf[body + 2] == fixed[2]
  {
  }

  /** The walk finds the specific info of any such hierarchy, and refuses one
      whose ES descriptor has optional fields. */
  lemma FindsThroughAnyHierarchy(h: Hierarchy)
    requires h.Sound()
    ensures Walk(h.Bytes(), 0, SPECIFIC_INFO) == if h.esFixed[2] < 32 then Some(h.asc) else None
  {
    hide At, Walk, Encodes, ReadLen, Flat, AllPlain, IsLength, Hierarchy.ConfigBytes;
    Starts(h.Bytes());
    Descends(h.Bytes(), 0, ES, h.esLength, h.esFixed, h.beforeConfig, h.ConfigBytes());
    FindsConfig(h, h.Bytes(), 1 + |h.esLength| + ES_FIXED + |Flat(h.beforeConfig)|);
  }

  lemma Starts(buf: seq<Byte>)
    ensures At(buf, 0, buf)
  {
  }

  lemma FindsConfig(h: Hierarchy, buf: seq<Byte>, pos: nat)
    requires h.Sound() && At(buf, pos, h.ConfigBytes())
    ensures Walk(buf, pos, SPECIFIC_INFO) == Some(h.asc)
  {
    hide At, Walk, Encodes, ReadLen, Flat, AllPlain, IsLength, Hierarchy.InfoBytes;
    Descends(buf, pos, DECODER_CONFIG, h.configLength, h.configFixed, h.beforeInfo, h.InfoBytes());
    FindsInfo(h, buf, pos + 1 + |h.configLength| + CONFIG_FIXED + |Flat(h.beforeInfo)|);
  }

  lemma FindsInfo(h: Hierarchy, buf: seq<Byte>, pos: nat)
    requires h.Sound() && At(buf, pos, h.InfoBytes())
    ensures Walk(buf, pos, SPECIFIC_INFO) == Some(h.asc)
  {
    hide At, Walk, Encodes, ReadLen;
    Opens(buf, pos, SPECIFIC_INFO, h.infoLength, |h.asc|, h.asc, h.tail);
    AtFits(buf, pos + 1 + |h.infoLength|, h.asc);
    WalkSteps(buf, pos, |h.asc|, pos + 1 + |h.infoLength|);
  }

  // ---------------------------------------------------------------------
  // The printer.
  // ---------------------------------------------------------------------

  function BigEndian(v: nat): seq<Byte> {
    [v / 0x100_0000 % 256, v / 0x1_0000 % 256, v / 0x100 % 256, v % 256]
  }

  lemma BigEndianReadsBack(v: nat)
    requires v < 0x1_0000_0000
    ensures var b := BigEndian(v);
            |b| == 4 && b[0] as int * 0x100_0000 + b[1] as int * 0x1_0000 + b[2] as int * 0x100 + b[3] as int == v
  {
    var high, mid := v / 0x1_0000, v / 0x100;
    assert mid / 256 == high && high / 256 == v / 0x100_0000 < 256;
  }

  function ConfigFixed(): seq<Byte> {
    [0x40, 0x15, 0, 0, 0] + BigEndian(ENCODE_BIT_RATE) + BigEndian(ENCODE_BIT_RATE)
  }

  /** The sync-layer descriptor that closes the decoder's part. */
  const SL_CONFIG: seq<Byte> := [6, 1, 2]

  function ConfigSize(asc: nat): nat { CONFIG_FIXED + 1 + |LenBytes(asc)| + asc + |SL_CONFIG| }

  function EsSize(asc: nat): nat { ES_FIXED + 1 + |LenBytes(ConfigSize(asc))| + ConfigSize(asc) }

  /** A bare config in the minimal hierarchy. */
  function Wrapped(asc: seq<Byte>): Hierarchy {
    Hierarchy(LenBytes(EsSize(|asc|)), [0, 2, 0], [], LenBytes(ConfigSize(|asc|)), ConfigFixed(), [],
              LenBytes(|asc|), asc, SL_CONFIG)
  }

  /** A hierarchy goes to the file as the codec wrote it, a bare config wrapped. */
  function EsdsBytes(cookie: seq<Byte>): seq<Byte> {
    if cookie != [] && cookie[0] == ES then cookie else Wrapped(cookie).Bytes()
  }

  function BareConfig(cookie: seq<Byte>): Option<seq<Byte>> {
    if cookie == [] then None
    else if cookie[0] != ES then Some(cookie)
    else Walk(cookie, 0, SPECIFIC_INFO)
  }

  method EsdsContent(cookie: seq<Byte>) returns (es: seq<Byte>)
    requires EsSize(|cookie|) < FIVE_BYTES
    ensures es == EsdsBytes(cookie)
  {
    if cookie != [] && cookie[0] == ES {
      return cookie;
    }
    var specific := SpecificInfo(cookie);
    var config := DecoderConfig(cookie, specific);
    hide LenBytes;
    es := [ES];
    es := PushDescLen(es, 2 + 1 + |config|);
    es := es + [0, 2, 0];
    es := es + config;
    WrapNests(cookie);
    assert Flat([]) + config == config;
  }

  method SpecificInfo(asc: seq<Byte>) returns (specific: seq<Byte>)
    requires |asc| < FIVE_BYTES
    ensures specific == Wrapped(asc).InfoBytes()
  {
    hide LenBytes, ConfigSize, EsSize;
    specific := [SPECIFIC_INFO];
    specific := PushDescLen(specific, |asc|);
    specific := specific + asc;
    ghost var head := specific;
    specific := specific + [6];
    specific := PushDescLen(specific, 1);
    specific := specific + [2];
    OneByte();
    assert specific == head + SL_CONFIG;
  }

  method DecoderConfig(asc: seq<Byte>, specific: seq<Byte>) returns (config: seq<Byte>)
    requires specific == Wrapped(asc).InfoBytes() && ConfigSize(|asc|) < FIVE_BYTES
    ensures config == Wrapped(asc).ConfigBytes()
  {
    config := [DECODER_CONFIG];
    config := PushDescLen(config, 1 + 1 + 3 + 4 + 4 + |specific|);
    ghost var head := config;
    config := config + [0x40];
    config := config + [0x15];
    config := config + [0, 0, 0];
    config := config + BigEndian(ENCODE_BIT_RATE);
    config := config + BigEndian(ENCODE_BIT_RATE);
    assert config == head + ConfigFixed();
    config := config + specific;
    assert Flat([]) + specific == specific;
  }

  lemma OneByte()
    ensures LenBytes(1) == [1]
  {
  }

  /** The printed lengths nest: each covers exactly what is inside it. */
  lemma WrapNests(asc: seq<Byte>)
    ensures var h := Wrapped(asc);
            && |h.Bytes()| == 1 + |h.esLength| + EsSize(|asc|)
            && |h.ConfigBytes()| == 1 + |h.configLength| + ConfigSize(|asc|)
            && |h.InfoBytes()| == 1 + |h.infoLength| + |asc| + |SL_CONFIG|
  {
  }

  /** The round trip: a config wrapped for the file is found there again, exactly
      when the outermost length takes the four bytes the walk reads. */
  lemma WrappedIsFound(asc: seq<Byte>)
    ensures Walk(Wrapped(asc).Bytes(), 0, SPECIFIC_INFO) == Some(asc) <==> EsSize(|asc|) < FOUR_BYTES
  {
    var h := Wrapped(asc);
    if EsSize(|asc|) < FOUR_BYTES {
      LenReadsBack(EsSize(|asc|));
      LenReadsBack(ConfigSize(|asc|));
      LenReadsBack(|asc|);
      assert Encodes(h.esLength, EsSize(|asc|)) && Encodes(h.configLength, ConfigSize(|asc|));
      FindsThroughAnyHierarchy(h);
    } else {
      TooLongIsLost(h, EsSize(|asc|));
    }
  }

  lemma TooLongIsLost(h: Hierarchy, len: nat)
    requires h.esLength == LenBytes(len) && len >= FOUR_BYTES
    ensures Walk(h.Bytes(), 0, SPECIFIC_INFO) == None
  {
    var buf := h.Bytes();
    Powers();
    MoreFits(len / 128, 3);
    MoreGoesOn(len / 128);
    assert buf[0] == ES;
    forall k | 1 <= k < 5 ensures buf[k] >= 128 {
      assert buf[k] == h.esLength[k - 1] == More(len / 128)[k - 1];
    }
    NeverEnds(buf, 1, 4, 0);
  }

  /** What the file's box carries and what a stream's sequence header carries are
      one config: for a hierarchy always, for a bare config exactly when it is
      nonempty and its wrapping is short enough to walk. */
  lemma FileAndStreamAgree(cookie: seq<Byte>)
    ensures BareConfig(EsdsBytes(cookie)) == BareConfig(cookie)
       <==> cookie != [] && (cookie[0] == ES || EsSize(|cookie|) < FOUR_BYTES)
  {
    hide Walk, EsSize;
    if cookie == [] || cookie[0] != ES {
      WrappedIsFound(cookie);
      assert Wrapped(cookie).Bytes()[0] == ES;
      if cookie == [] {
        EmptyIsShort();
      }
    }
  }

  lemma EmptyIsShort()
    ensures EsSize(0) < FOUR_BYTES
  {
  }
}
