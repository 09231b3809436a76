/** What the sound chip plays: a twelve-bit accumulator that wraps, and what that makes of
    a voice the encoder gave. */
module AdpcmChip {
  import opened AdpcmTable
  import opened AdpcmSpec
  import opened AdpcmSettle

  /** A value in a signed twelve-bit register. */
  function Wrap12(v: int): (w: int)
    ensures -0x800 <= w < 0x800 && (-0x800 <= v < 0x800 ==> w == v)
  {
    (v + 0x800) % 0x1000 - 0x800
  }

  /** The step index a nibble's three low bits lead to. */
  function StepNext(step: nat, mag: nat): nat {
    var next :=
      match mag
      case 4 => step + 2
      case 5 => step + 5
      case 6 => step + 7
      case 7 => step + 9
      case _ => if step == 0 then 0 else step - 1;
    if next > 48 then 48 else next
  }

  datatype Chip = Chip(x: int, step: nat)

  const RESET := Chip(0, 0)

  /** One nibble clocked in: the increment of the step as it was, added or subtracted. */
  function Clocked(c: Chip, nib: nat): (r: Chip)
    requires c.step < STEPS && nib < 16
    ensures r.step < STEPS
  {
    var inc := Inc(c.step, nib % 8);
    Chip(Wrap12(if nib / 8 == 1 then c.x - inc else c.x + inc), StepNext(c.step, nib % 8))
  }

  /** The `k`-th nibble of a run of bytes: the high half of a byte goes first. */
  function NibbleAt(bytes: seq<nat>, k: nat): nat
    requires k < 2 * |bytes|
  {
    if k % 2 == 0 then bytes[k / 2] / 16 % 16 else bytes[k / 2] % 16
  }

  /** The chip after the first `k` nibbles. */
  function Played(bytes: seq<nat>, k: nat): (c: Chip)
    requires k <= 2 * |bytes|
    ensures c.step < STEPS
  {
    if k == 0 then RESET else Clocked(Played(bytes, k - 1), NibbleAt(bytes, k - 1))
  }

  /** The encoder's state as the chip's registers hold it. */
  function Held(dec: Decoder): Chip { Chip(Wrap12(dec.x), dec.step) }

  lemma Wraps(a: int, d: int)
    ensures Wrap12(Wrap12(a) + d) == Wrap12(a + d)
  {
    var k := (a + 0x800) / 0x1000;
    assert Wrap12(a) == a - 0x1000 * k;
    Shifts(a + d + 0x800, k);
  }

  lemma Shifts(v: int, k: int)
    ensures (v - 0x1000 * k) % 0x1000 == v % 0x1000
  {
  }

  /** The encoder's model moves as the chip does, but for the wrap. */
  lemma ClockFollows(dec: Decoder, nib: nat)
    requires dec.step < STEPS && nib < 16
    ensures Clocked(Held(dec), nib) == Held(Decode(dec, nib))
  {
    hide Inc, Wrap12;
    var inc := Inc(dec.step, nib % 8);
    Wraps(dec.x, inc);
    Wraps(dec.x, -inc);
  }

  /** The targets a voice encodes: its own, then silence to the end of its last block. */
  function Padded(targets: seq<int>): (t: seq<int>)
    ensures |t| == |targets| + PadSamples(|targets|)
  {
    targets + Zeros(PadSamples(|targets|))
  }

  lemma NibblesAre(targets: seq<int>, k: nat)
    requires k < |Padded(targets)|
    ensures 2 * |PackVoice(targets)| == |Padded(targets)|
    ensures NibbleAt(PackVoice(targets), k) == Encode(START, Padded(targets))[k]
  {
    hide Encode, PadSamples;
    PadHalves(|targets|);
    var nibs := Encode(START, Padded(targets));
    assert PackVoice(targets) == PackNibbles(nibs);
    assert k == 2 * (k / 2) + k % 2;
  }

  /** The chip playing a packed voice holds, nibble by nibble, what the encoder tracked, in
      twelve bits: the same value if and only if that fits twelve bits. */
  lemma {:induction false} PlaysVoice(targets: seq<int>, k: nat)
    requires k <= |Padded(targets)|
    ensures 2 * |PackVoice(targets)| == |Padded(targets)|
    ensures var c, dec := Played(PackVoice(targets), k), After(START, Padded(targets)[..k]);
      c == Held(dec) && (c.x == dec.x <==> -0x800 <= dec.x < 0x800)
    decreases k
  {
    hide Encode, PadSamples, Decode, Pick, Clocked, PackVoice, Wrap12;
    PaddedHalves(targets);
    if k > 0 {
      var t := Padded(targets);
      PlaysVoice(targets, k - 1);
      NibblesAre(targets, k - 1);
      assert t[..k] == t[..k - 1] + [t[k - 1]];
      EncodeAppends(START, t[..k - 1], t[k - 1]);
      EncodePrefix(START, t, k);
      ClockFollows(After(START, t[..k - 1]), Pick(After(START, t[..k - 1]), t[k - 1]));
    }
  }

  lemma PaddedHalves(targets: seq<int>)
    ensures 2 * |PackVoice(targets)| == |Padded(targets)|
  {
    hide Encode, PadSamples;
    PadHalves(|targets|);
  }

  /** The nibbles of a prefix are a prefix of the nibbles. */
  lemma {:induction false} EncodePrefix(dec: Decoder, t: seq<int>, k: nat)
    requires dec.step < STEPS && 0 < k <= |t|
    ensures Encode(dec, t)[k - 1] == Pick(After(dec, t[..k - 1]), t[k - 1])
    decreases k
  {
    hide Decode, Pick;
    if k > 1 {
      assert t[..k - 1][1..] == t[1..][..k - 2] && t[..k - 1][0] == t[0];
      EncodePrefix(Decode(dec, Pick(dec, t[0])), t[1..], k - 1);
    }
  }

  // ---- the padding --------------------------------------------------------

  lemma {:induction false} AfterJoins(dec: Decoder, a: seq<int>, b: seq<int>)
    requires dec.step < STEPS
    ensures After(dec, a + b) == After(After(dec, a), b)
    decreases |a|
  {
    hide Decode, Pick;
    if a == [] {
      assert a + b == b;
    } else {
      assert (a + b)[1..] == a[1..] + b && (a + b)[0] == a[0];
      AfterJoins(Decode(dec, Pick(dec, a[0])), a[1..], b);
    }
  }

  lemma {:induction false} AfterInRange(dec: Decoder, targets: seq<int>)
    requires InRange(dec) && forall i | 0 <= i < |targets| :: -2048 <= targets[i] <= 2047
    ensures InRange(After(dec, targets))
    decreases |targets|
  {
    hide Decode, Pick;
    if targets != [] {
      PickStaysInRange(dec, targets[0]);
      AfterInRange(Decode(dec, Pick(dec, targets[0])), targets[1..]);
    }
  }

  /** The silence at the end brings the accumulator to rest if there are 57 samples of it. */
  lemma PaddingSettles(targets: seq<int>)
    requires PadSamples(|targets|) >= 57 && forall i | 0 <= i < |targets| :: -2048 <= targets[i] <= 2047
    ensures var dec := After(START, Padded(targets)); dec.step == 0 && -2 <= dec.x <= 2
  {
    hide PadSamples, After;
    var n := PadSamples(|targets|);
    AfterInRange(START, targets);
    AfterJoins(START, targets, Zeros(n));
    assert Zeros(n) == Still(0, n);
    Settles(After(START, targets), 0, n);
  }

  /** There may be none: a voice that fills its last block ends wherever it was. */
  lemma FullBlockDoesNotSettle()
    ensures PadSamples(512) == 0 && Padded(Still(2000, 512)) == Still(2000, 512)
    ensures 1998 <= After(START, Padded(Still(2000, 512))).x <= 2002
  {
    hide After;
    assert Padded(Still(2000, 512)) == Still(2000, 512);
    Settles(START, 2000, 512);
  }

  // ---- when it wraps ------------------------------------------------------

  /** Targets within -1854 to 1853 never wrap the chip. */
  lemma {:induction false} QuietStays(dec: Decoder, targets: seq<int>)
    requires -0x800 <= dec.x < 0x800 && dec.step < STEPS
    requires forall i | 0 <= i < |targets| :: -1854 <= targets[i] <= 1853
    ensures -0x800 <= After(dec, targets).x < 0x800
    decreases |targets|
  {
    hide Decode, Pick;
    if targets != [] {
      PickStaysNear(dec, targets[0], -1854, 1853);
      QuietStays(Decode(dec, Pick(dec, targets[0])), targets[1..]);
    }
  }

  /** So a voice within those bounds is played as it was tracked. */
  lemma QuietVoice(targets: seq<int>, k: nat)
    requires k <= |Padded(targets)| && forall i | 0 <= i < |targets| :: -1854 <= targets[i] <= 1853
    ensures 2 * |PackVoice(targets)| == |Padded(targets)|
    ensures Played(PackVoice(targets), k).x == After(START, Padded(targets)[..k]).x
  {
    hide Played, PackVoice, PadSamples;
    PlaysVoice(targets, k);
    QuietStays(START, Padded(targets)[..k]);
  }

  /** The loudest target, held, does wrap it: of any three states from the 57th on one is
      beyond twelve bits, and the chip holds 4096 less. */
  lemma LoudWraps(dec: Decoder, n: nat)
    requires InRange(dec) && n >= 57
    ensures exists m: nat :: n <= m <= n + 2 && After(dec, Still(2047, m)).x > 2047
  {
    hide Pick, After, Next;
    var a, b, c := After(dec, Still(2047, n)), After(dec, Still(2047, n + 1)), After(dec, Still(2047, n + 2));
    Settles(dec, 2047, n);
    StillNext(dec, 2047, n);
    StillNext(dec, 2047, n + 1);
    if a.x <= 2047 {
      Rests(a);
      if b.x <= 2047 { Rests(b); }
    }
    assert a.x > 2047 || b.x > 2047 || c.x > 2047;
  }

  lemma StillNext(dec: Decoder, target: int, n: nat)
    requires dec.step < STEPS
    ensures After(dec, Still(target, n + 1)) == Next(After(dec, Still(target, n)), target)
  {
    hide Decode, Pick;
    assert Still(target, n + 1) == Still(target, n) + [target];
    EncodeAppends(dec, Still(target, n), target);
  }

  /** At rest two below the target the accumulator comes to it, at it or one below it goes
      past. */
  lemma Rests(dec: Decoder)
    requires dec.step == 0 && 2045 <= dec.x <= 2047
    ensures var r := Next(dec, 2047); r.step == 0 && r.x == dec.x + 2
  {
    hide Inc, Miss, Pick;
    forall nib: nat | nib < 16 ensures Miss(dec, 0, 2047) <= Miss(dec, nib, 2047) { RestMiss(dec, nib); }
    PickFirst(dec, 2047);
    FirstIncs(0);
  }

  lemma FirstIncs(mag: nat)
    requires mag < 8
    ensures Inc(0, mag) == 2 + 4 * mag
  {
  }

  lemma RestMiss(dec: Decoder, nib: nat)
    requires dec.step == 0 && 2045 <= dec.x <= 2047 && nib < 16
    ensures Miss(dec, 0, 2047) <= Miss(dec, nib, 2047)
  {
    hide Inc;
    FirstIncs(0);
    FirstIncs(Magnitude(nib));
  }
}
