/**
 The checksums of a 64 KiB BIOS image: five kinds of header, each with a checksum over a
 region whose length the header gives, and a checksum over the whole image.
 */
module BiosSums {
  import opened Options

  const LENGTH: nat := 0x1_0000
  const MAX_OFFSET: nat := LENGTH - 1
  const BIOS_OFFSET: nat := 0xffff

  type Byte = b: int | 0 <= b < 256

  datatype Kind = Pci32 | Mp | Pcmp | Pir | Pnp

  const ORDER: seq<Kind> := [Pci32, Mp, Pcmp, Pir, Pnp]

  function Signature(k: Kind): (s: string)
    ensures |s| == 4 && forall i :: 0 <= i < 4 ==> s[i] < 128 as char
  {
    match k
    case Pci32 => "_32_"
    case Mp => "_MP_"
    case Pcmp => "PCMP"
    case Pir => "$PIR"
    case Pnp => "$PnP"
  }

  /** Where the checksum byte is, from the start of the header. */
  function ChecksumAt(k: Kind): nat {
    match k
    case Pci32 => 10
    case Mp => 10
    case Pcmp => 7
    case Pir => 31
    case Pnp => 8
  }

  function MinHeader(k: Kind): nat {
    match k
    case Pci32 => 16
    case Mp => 16
    case Pcmp => 42
    case Pir => 32
    case Pnp => 32
  }

  /** The length of the region that the header at `off` asks to have summed. */
  function RegionLength(data: seq<Byte>, k: Kind, off: nat): nat
    requires |data| == LENGTH && off + MinHeader(k) <= MAX_OFFSET
  {
    match k
    case Pci32 => (data[off + 9] as int) * 16
    case Mp => (data[off + 8] as int) * 16
    case Pcmp => data[off + 4] + (data[off + 5] as int) * 256
    case Pir => data[off + 6] + (data[off + 7] as int) * 256
    case Pnp => data[off + 5]
  }

  /** The header and the region it names lie within the image. */
  predicate Fits(data: seq<Byte>, k: Kind, off: nat)
    requires |data| == LENGTH
  {
    off + MinHeader(k) <= MAX_OFFSET && off + RegionLength(data, k, off) <= MAX_OFFSET
  }

  /** The header passes every `check` on the way to its checksum. */
  predicate Acceptable(data: seq<Byte>, k: Kind, off: nat)
    requires |data| == LENGTH
  {
    Fits(data, k, off) && (k == Pcmp ==> data[off + 40] == 0 && data[off + 41] == 0 && data[off + 42] == 0)
  }

  /** The signature stands at a 16-byte boundary; the scan starts behind the first one. */
  predicate HeaderAt(data: seq<Byte>, k: Kind, off: nat)
    requires |data| == LENGTH
  {
    && 16 <= off <= LENGTH - 16 && off % 16 == 0
    && data[off] == Signature(k)[0] as int && data[off + 1] == Signature(k)[1] as int
    && data[off + 2] == Signature(k)[2] as int && data[off + 3] == Signature(k)[3] as int
  }

  /** The 16-byte boundary at or behind an offset. */
  function RoundedUp(offset: nat): (r: nat)
    ensures r % 16 == 0 && offset <= r < offset + 16
    ensures offset % 16 == 0 ==> r == offset
  {
    (offset + 15) / 16 * 16
  }

  function Sum(data: seq<Byte>, from: nat, to: nat): nat
    requires from <= to <= |data|
  {
    if from == to then 0 else Sum(data, from, to - 1) + data[to - 1]
  }

  lemma {:induction false} SumAfterUpdate(data: seq<Byte>, p: nat, v: Byte, from: nat, to: nat)
    requires from <= to <= |data| && p < |data|
    ensures Sum(data[p := v], from, to) == Sum(data, from, to) + (if from <= p < to then v as int - data[p] else 0)
  {
    if from < to {
      SumAfterUpdate(data, p, v, from, to - 1);
    }
  }

  /** The sum of a region without its byte at `skip`. */
  function SumWithout(data: seq<Byte>, off: nat, len: nat, skip: nat): int
    requires off + len <= |data|
  {
    Sum(data, off, off + len) - (if skip < len then data[off + skip] else 0)
  }

  // ---------- one kind of header ----------

  ghost predicate OnlyHeader(data: seq<Byte>, k: Kind, off: nat)
    requires |data| == LENGTH
  {
    HeaderAt(data, k, off) && forall o :: 0 <= o < LENGTH && HeaderAt(data, k, o) ==> o == off
  }

  /** The byte that the fixer may change for this kind. */
  ghost predicate Target(data: seq<Byte>, k: Kind, p: nat)
    requires |data| == LENGTH
  {
    p >= ChecksumAt(k) && OnlyHeader(data, k, p - ChecksumAt(k))
  }

  ghost predicate AllAcceptable(data: seq<Byte>, k: Kind)
    requires |data| == LENGTH
  {
    forall o :: 0 <= o < LENGTH && HeaderAt(data, k, o) ==> Acceptable(data, k, o)
  }

  /** With this byte at the checksum's place the region sums to zero. */
  ghost predicate Balances(data: seq<Byte>, k: Kind, off: nat, v: Byte)
    requires |data| == LENGTH && Fits(data, k, off)
  {
    (v as int + SumWithout(data, off, RegionLength(data, k, off), ChecksumAt(k))) % 256 == 0
  }

  /** One kind dealt with: a header found exactly once has its checksum set, otherwise nothing changes. */
  ghost predicate Stage(data: seq<Byte>, k: Kind, data': seq<Byte>) {
    && |data| == |data'| == LENGTH && AllAcceptable(data, k)
    && (if exists off: nat :: OnlyHeader(data, k, off) then
          forall off: nat :: OnlyHeader(data, k, off) ==>
            && data' == data[off + ChecksumAt(k) := data'[off + ChecksumAt(k)]]
            && Balances(data, k, off, data'[off + ChecksumAt(k)])
        else data' == data)
  }

  class Bios {
    const data: array<Byte>

    constructor (data: array<Byte>)
      requires data.Length == LENGTH
      ensures this.data == data
    {
      this.data := data;
    }

    /** The next header behind `offset` rounded up to a 16-byte boundary, or -1. */
    method GetOffset(k: Kind, offset: nat) returns (r: int)
      requires data.Length == LENGTH
      ensures r == -1 ==> forall o :: RoundedUp(offset) < o < LENGTH ==> !HeaderAt(data[..], k, o)
      ensures r != -1 ==>
                && RoundedUp(offset) < r < LENGTH && HeaderAt(data[..], k, r)
                && forall o :: RoundedUp(offset) < o < r ==> !HeaderAt(data[..], k, o)
    {
      var o := offset + 15;
      o := o - o % 16;
      while o + 16 < MAX_OFFSET
        invariant RoundedUp(offset) <= o && o % 16 == 0
        invariant forall p :: RoundedUp(offset) < p <= o && p < LENGTH ==> !HeaderAt(data[..], k, p)
      {
        o := o + 16;
        if data[o] == Signature(k)[0] as int && data[o + 1] == Signature(k)[1] as int
           && data[o + 2] == Signature(k)[2] as int && data[o + 3] == Signature(k)[3] as int {
          return o;
        }
      }
      r := -1;
    }

    /** The value that makes the region sum to zero, or `None` for a failed check. */
    method CalcValue(k: Kind, offset: nat) returns (r: Option<Byte>)
      requires data.Length == LENGTH
      ensures r.Some? <==> Acceptable(data[..], k, offset)
      ensures r.Some? ==> (r.value as int + SumWithout(data[..], offset, RegionLength(data[..], k, offset), ChecksumAt(k))) % 256 == 0
    {
      if offset + MinHeader(k) > MAX_OFFSET {
        return None;
      }
      var len: nat;
      match k {
        case Pci32 => len := (data[offset + 9] as int) * 16;
        case Mp => len := (data[offset + 8] as int) * 16;
        case Pcmp => len := data[offset + 4] + (data[offset + 5] as int) * 256;
        case Pir => len := data[offset + 6] + (data[offset + 7] as int) * 256;
        case Pnp => len := data[offset + 5];
      }
      if offset + len > MAX_OFFSET {
        return None;
      }
      if k == Pcmp && (data[offset + 40] != 0 || data[offset + 41] != 0 || data[offset + 42] != 0) {
        return None;
      }
      var sum := SumRegion(offset, len, ChecksumAt(k));
      return Some((256 - sum as int) % 256);
    }

    /** The summing loop, in byte arithmetic. */
    method SumRegion(offset: nat, len: nat, skip: nat) returns (sum: Byte)
      requires offset + len <= data.Length
      ensures sum == SumWithout(data[..], offset, len, skip) % 256
    {
      sum := 0;
      for i := 0 to len
        invariant sum == SumWithout(data[..], offset, i, skip) % 256
      {
        if i != skip {
          sum := (sum as int + data[offset + i]) % 256;
        }
      }
    }

    /** The loop of `main` over the headers of one kind; `false` is the exit of a failed check. */
    method FixKind(k: Kind) returns (ok: bool)
      requires data.Length == LENGTH
      modifies data
      ensures ok ==> Stage(old(data[..]), k, data[..])
      ensures !ok ==> data[..] == old(data[..]) && !AllAcceptable(data[..], k)
    {
      hide HeaderAt, Fits, Acceptable, Balances, Seen, OnlyHeader, AllAcceptable;
      ghost var before := data[..];
      var hits, offset := 0, 0;
      var curVal: Byte, newVal: Byte := 0, 0;
      NothingSeen(before, k);
      var tmpOffset := GetOffset(k, offset);
      while tmpOffset != -1
        invariant data[..] == before && Seen(before, k, hits, offset)
        invariant offset % 16 == 0 && tmpOffset < LENGTH && (tmpOffset == -1 || offset < tmpOffset)
        invariant tmpOffset == -1 ==> forall o :: offset < o < LENGTH ==> !HeaderAt(before, k, o)
        invariant tmpOffset != -1 ==> HeaderAt(before, k, tmpOffset) && forall o :: offset < o < tmpOffset ==> !HeaderAt(before, k, o)
        invariant hits > 0 ==> Acceptable(before, k, offset) && Fits(before, k, offset) && offset + ChecksumAt(k) < LENGTH
        invariant hits > 0 ==> curVal == before[offset + ChecksumAt(k)] && Balances(before, k, offset, newVal)
        decreases LENGTH - offset, tmpOffset != -1
      {
        var v := Checked(k, tmpOffset);
        if v.None? {
          OneUnacceptable(before, k, tmpOffset);
          return false;
        }
        OneMoreSeen(before, k, hits, offset, tmpOffset);
        offset := tmpOffset;
        curVal, newVal := data[offset + ChecksumAt(k)], v.value;
        hits := hits + 1;
        tmpOffset := GetOffset(k, offset);
      }
      AllSeen(before, k, hits, offset);
      if hits == 1 && curVal != newVal {
        data[offset + ChecksumAt(k)] := newVal;
      }
      if hits == 1 {
        StageByOne(before, k, offset, data[..], newVal);
      } else {
        StageByNone(before, k);
      }
      return true;
    }

    /** `get_value` and `calc_value` of one header. */
    method Checked(k: Kind, offset: nat) returns (r: Option<Byte>)
      requires data.Length == LENGTH && HeaderAt(data[..], k, offset)
      ensures r.Some? <==> Acceptable(data[..], k, offset)
      ensures r.Some? ==>
                && offset % 16 == 0 && offset + ChecksumAt(k) < LENGTH && Fits(data[..], k, offset)
                && Balances(data[..], k, offset, r.value)
    {
      if offset + ChecksumAt(k) > MAX_OFFSET {
        return None;
      }
      r := CalcValue(k, offset);
    }

    /** The summing loop over all but the last byte. */
    method SumImage() returns (sum: Byte)
      requires data.Length == LENGTH
      ensures sum == Sum(data[..], 0, MAX_OFFSET) % 256
    {
      sum := 0;
      for i := 0 to MAX_OFFSET
        invariant sum == Sum(data[..], 0, i) % 256
      {
        sum := (sum as int + data[i]) % 256;
      }
    }

    /** The checksum byte of the whole image, its last. */
    method FixImage()
      requires data.Length == LENGTH
      modifies data
      ensures data[..] == old(data[..])[BIOS_OFFSET := data[BIOS_OFFSET]]
      ensures Sum(data[..], 0, LENGTH) % 256 == 0
    {
      ghost var before := data[..];
      var sum := SumImage();
      var newVal: Byte := (256 - sum as int) % 256;
      SumAfterUpdate(before, BIOS_OFFSET, newVal, 0, MAX_OFFSET);
      if data[BIOS_OFFSET] != newVal {
        data[BIOS_OFFSET] := newVal;
      }
      assert data[..] == before[BIOS_OFFSET := newVal];
    }

    /** A run of the program on a full image, without `-pad`; the states are the image after each kind. */
    method Run() returns (ok: bool, ghost states: seq<seq<Byte>>)
      requires data.Length == LENGTH
      modifies data
      ensures Staged(states) && states[0] == old(data[..])
      ensures ok ==> Completed(states, data[..])
      ensures !ok ==> |states| <= |ORDER| && data[..] == states[|states| - 1]
      ensures !ok ==> !AllAcceptable(states[|states| - 1], ORDER[|states| - 1])
    {
      hide Stage, AllAcceptable;
      states := [data[..]];
      for n := 0 to |ORDER|
        invariant |states| == n + 1 && states[0] == old(data[..]) && states[n] == data[..]
        invariant Staged(states)
      {
        ok := FixKind(ORDER[n]);
        if !ok {
          return;
        }
        states := states + [data[..]];
      }
      FixImage();
      ok := true;
    }

    /**
     Running the program on its own output: the second run completes and changes nothing if and
     only if the output is balanced and no PCMP header has its extension fields set. It is
     balanced whenever no region holds the checksum of a kind dealt with later.
     */
    method RunTwice() returns (first: bool, second: bool, ghost once: seq<Byte>)
      requires data.Length == LENGTH
      modifies data
      ensures first ==> |once| == LENGTH && Sum(once, 0, LENGTH) % 256 == 0
      ensures first ==> (second && data[..] == once <==> Balanced(once) && ExtensionsClear(once))
      ensures first && NoLaterChecksumInside(old(data[..])) ==> Balanced(once) && data[..] == once
    {
      hide Stage, AllAcceptable, ExtensionsClear, NoLaterChecksumInside, Balanced;
      second, once := false, [];
      ghost var states, again;
      first, states := Run();
      if first {
        once := data[..];
        second, again := Run();
        if NoLaterChecksumInside(states[0]) {
          CompletedIsBalanced(states, once);
        }
        if second {
          CompletedAgain(states, once, again, data[..]);
        } else {
          StoppedAgain(states, once, again);
        }
      }
    }
  }

  /** The image after each of the kinds dealt with so far. */
  ghost predicate Staged(states: seq<seq<Byte>>) {
    && 1 <= |states| <= |ORDER| + 1 && |states[0]| == LENGTH
    && (forall n :: 0 <= n < |states| ==> |states[n]| == LENGTH)
    && (forall n :: 0 <= n < |states| - 1 ==> Stage(states[n], ORDER[n], states[n + 1]))
  }

  /** The image that is written back. */
  ghost predicate Completed(states: seq<seq<Byte>>, final: seq<Byte>) {
    && Staged(states) && |states| == |ORDER| + 1 && |final| == LENGTH
    && final == states[|ORDER|][BIOS_OFFSET := final[BIOS_OFFSET]]
    && Sum(final, 0, LENGTH) % 256 == 0
  }

  // ---------- what stays and what is fixed ----------

  /** No write touches a signature, so no header appears or disappears. */
  lemma WriteKeepsHeaders(data: seq<Byte>, k: Kind, off: nat, v: Byte, k': Kind, o: nat)
    requires |data| == LENGTH && HeaderAt(data, k, off) && off + ChecksumAt(k) < LENGTH
    ensures HeaderAt(data[off + ChecksumAt(k) := v], k', o) <==> HeaderAt(data, k', o)
  {}

  /** Nor a length, except that of no header: a header has one signature only. */
  lemma WriteKeepsLengths(data: seq<Byte>, k: Kind, off: nat, v: Byte, k': Kind, o: nat)
    requires |data| == LENGTH && HeaderAt(data, k, off) && off + ChecksumAt(k) < LENGTH
    requires HeaderAt(data, k', o) && o + MinHeader(k') <= MAX_OFFSET
    ensures RegionLength(data[off + ChecksumAt(k) := v], k', o) == RegionLength(data, k', o)
  {}

  lemma StageKeepsHeaders(data: seq<Byte>, k: Kind, data': seq<Byte>, k': Kind)
    requires Stage(data, k, data')
    ensures forall o :: 0 <= o < LENGTH ==> (HeaderAt(data', k', o) <==> HeaderAt(data, k', o))
    ensures forall o :: 0 <= o < LENGTH && HeaderAt(data, k', o) && o + MinHeader(k') <= MAX_OFFSET ==>
              RegionLength(data', k', o) == RegionLength(data, k', o)
  {
    if off: nat :| OnlyHeader(data, k, off) {
      assert Acceptable(data, k, off);
      forall o: nat | 0 <= o < LENGTH
        ensures HeaderAt(data', k', o) <==> HeaderAt(data, k', o)
        ensures HeaderAt(data, k', o) && o + MinHeader(k') <= MAX_OFFSET ==> RegionLength(data', k', o) == RegionLength(data, k', o)
      {
        WriteKeepsHeaders(data, k, off, data'[off + ChecksumAt(k)], k', o);
        if HeaderAt(data, k', o) && o + MinHeader(k') <= MAX_OFFSET {
          WriteKeepsLengths(data, k, off, data'[off + ChecksumAt(k)], k', o);
        }
      }
    }
  }

  lemma {:induction false} HeadersStay(states: seq<seq<Byte>>, m: nat, k: Kind)
    requires Staged(states) && m < |states|
    ensures forall o :: 0 <= o < LENGTH ==> (HeaderAt(states[m], k, o) <==> HeaderAt(states[0], k, o))
    ensures forall o :: 0 <= o < LENGTH && HeaderAt(states[0], k, o) && o + MinHeader(k) <= MAX_OFFSET ==>
              RegionLength(states[m], k, o) == RegionLength(states[0], k, o)
  {
    hide HeaderAt, RegionLength, Stage;
    if m > 0 {
      HeadersStay(states, m - 1, k);
      StageKeepsHeaders(states[m - 1], ORDER[m - 1], states[m], k);
    }
  }

  lemma TargetsStay(states: seq<seq<Byte>>, m: nat, k: Kind, p: nat)
    requires Staged(states) && m < |states| && p < LENGTH
    ensures Target(states[m], k, p) <==> Target(states[0], k, p)
  {
    hide HeaderAt, RegionLength, Stage;
    HeadersStay(states, m, k);
    assert forall o :: 0 <= o < LENGTH && HeaderAt(states[m], k, o) ==> HeaderAt(states[0], k, o);
  }

  lemma StageKeepsByte(data: seq<Byte>, k: Kind, data': seq<Byte>, p: nat)
    requires Stage(data, k, data') && p < LENGTH && !Target(data, k, p)
    ensures data'[p] == data[p]
  {
    hide HeaderAt, Balances, Acceptable;
    if off: nat :| OnlyHeader(data, k, off) {
      assert Target(data, k, off + ChecksumAt(k));
    }
  }

  lemma {:induction false} SameBytesSameSum(a: seq<Byte>, b: seq<Byte>, from: nat, to: nat)
    requires from <= to <= |a| == |b| && forall p :: from <= p < to ==> a[p] == b[p]
    ensures Sum(a, from, to) == Sum(b, from, to)
  {
    if from < to {
      SameBytesSameSum(a, b, from, to - 1);
    }
  }

  /** No byte in [from, to) is the checksum of a kind that comes after the n-th. */
  ghost predicate LaterOutside(data: seq<Byte>, n: nat, from: nat, to: nat)
    requires |data| == LENGTH
  {
    forall m, p :: n < m < |ORDER| && from <= p < to ==> !Target(data, ORDER[m], p)
  }

  lemma {:induction false} BytesStay(states: seq<seq<Byte>>, m: nat, m': nat, n: nat, from: nat, to: nat)
    requires Staged(states) && n < m <= m' < |states| && to <= LENGTH && LaterOutside(states[0], n, from, to)
    ensures forall p :: from <= p < to ==> states[m'][p] == states[m][p]
    decreases m'
  {
    hide Stage, Target;
    if m < m' {
      BytesStay(states, m, m' - 1, n, from, to);
      forall p | from <= p < to
        ensures states[m'][p] == states[m' - 1][p]
      {
        TargetsStay(states, m' - 1, ORDER[m' - 1], p);
        assert !Target(states[0], ORDER[m' - 1], p);
        StageKeepsByte(states[m' - 1], ORDER[m' - 1], states[m'], p);
      }
    }
  }

  /** No byte is the checksum of two kinds. */
  lemma TargetsDiffer(data: seq<Byte>, k: Kind, k': Kind, p: nat)
    requires |data| == LENGTH && Target(data, k, p) && Target(data, k', p)
    ensures k == k'
  {}

  /** So the checksum byte of a kind keeps what its own stage put there. */
  lemma OwnByteStays(states: seq<seq<Byte>>, final: seq<Byte>, n: nat, off: nat)
    requires Completed(states, final) && n < |ORDER| && OnlyHeader(states[0], ORDER[n], off)
    requires off + MinHeader(ORDER[n]) <= MAX_OFFSET
    ensures final[off + ChecksumAt(ORDER[n])] == states[n + 1][off + ChecksumAt(ORDER[n])]
  {
    var p := off + ChecksumAt(ORDER[n]);
    forall m | n < m < |ORDER|
      ensures !Target(states[0], ORDER[m], p)
    {
      if Target(states[0], ORDER[m], p) {
        TargetsDiffer(states[0], ORDER[n], ORDER[m], p);
      }
    }
    hide Stage, HeaderAt, Target;
    BytesStay(states, n + 1, |ORDER|, n, p, p + 1);
  }

  /** Bytes that agree but for the one that is skipped. */
  lemma SameSumWithout(a: seq<Byte>, b: seq<Byte>, off: nat, len: nat, skip: nat)
    requires |a| == |b| && off + len <= |a|
    requires forall p :: off <= p < off + len && p != off + skip ==> a[p] == b[p]
    ensures SumWithout(a, off, len, skip) == SumWithout(b, off, len, skip)
  {
    if skip < len {
      var c := a[off + skip := b[off + skip]];
      SumAfterUpdate(a, off + skip, b[off + skip], off, off + len);
      SameBytesSameSum(c, b, off, off + len);
    } else {
      SameBytesSameSum(a, b, off, off + len);
    }
  }

  /**
   In a completed run a header found exactly once fits the image, and its checksum is still
   the right one in the end unless a later kind's checksum falls into its region.
   */
  lemma RegionsBalance(states: seq<seq<Byte>>, final: seq<Byte>, n: nat, off: nat)
    requires Completed(states, final) && n < |ORDER| && OnlyHeader(states[0], ORDER[n], off)
    ensures Fits(states[0], ORDER[n], off) && Fits(final, ORDER[n], off)
    ensures RegionLength(final, ORDER[n], off) == RegionLength(states[0], ORDER[n], off)
    ensures LaterOutside(states[0], n, off, off + RegionLength(states[0], ORDER[n], off)) ==>
              Balances(final, ORDER[n], off, final[off + ChecksumAt(ORDER[n])])
  {
    var k := ORDER[n];
    HeadersStay(states, n, k);
    HeadersStay(states, |ORDER|, k);
    OnlyHeaderStays(states, n, k, off);
    assert Stage(states[n], k, states[n + 1]) && Acceptable(states[n], k, off);
    var len, p := RegionLength(states[0], k, off), off + ChecksumAt(k);
    assert RegionLength(states[n], k, off) == len;
    LastByteIsFree(states[|ORDER|], k, final[BIOS_OFFSET]);
    OwnByteStays(states, final, n, off);
    assert states[n + 1] == states[n][p := states[n + 1][p]];
    hide HeaderAt, Stage, Target, RegionLength;
    if LaterOutside(states[0], n, off, off + len) {
      BytesStay(states, n + 1, |ORDER|, n, off, off + len);
      SameSumWithout(final, states[n], off, len, ChecksumAt(k));
    }
  }

  /** A region that holds its own checksum byte and no later kind's sums to zero in the end. */
  lemma RegionsSumToZero(states: seq<seq<Byte>>, final: seq<Byte>, n: nat, off: nat)
    requires Completed(states, final) && n < |ORDER| && OnlyHeader(states[0], ORDER[n], off)
    ensures Fits(states[0], ORDER[n], off)
    ensures var len := RegionLength(states[0], ORDER[n], off);
            ChecksumAt(ORDER[n]) < len && LaterOutside(states[0], n, off, off + len) ==> Sum(final, off, off + len) % 256 == 0
  {
    hide HeaderAt, RegionLength, Target;
    RegionsBalance(states, final, n, off);
  }

  lemma OnlyHeaderStays(states: seq<seq<Byte>>, m: nat, k: Kind, off: nat)
    requires Staged(states) && m < |states| && OnlyHeader(states[0], k, off)
    ensures OnlyHeader(states[m], k, off)
  {
    hide Stage;
    HeadersStay(states, m, k);
    assert off < LENGTH;
    hide HeaderAt;
  }

  lemma LastByteIsFree(data: seq<Byte>, k: Kind, v: Byte)
    requires |data| == LENGTH
    ensures forall o :: 0 <= o < LENGTH ==> (HeaderAt(data[BIOS_OFFSET := v], k, o) <==> HeaderAt(data, k, o))
    ensures forall o :: 0 <= o < LENGTH && HeaderAt(data, k, o) && o + MinHeader(k) <= MAX_OFFSET ==>
              RegionLength(data[BIOS_OFFSET := v], k, o) == RegionLength(data, k, o)
  {}

  /** After a completed run the headers and the lengths of their regions are what they were. */
  lemma FinalHeaders(states: seq<seq<Byte>>, final: seq<Byte>, k: Kind)
    requires Completed(states, final)
    ensures forall o :: 0 <= o < LENGTH ==> (HeaderAt(final, k, o) <==> HeaderAt(states[0], k, o))
    ensures forall o :: 0 <= o < LENGTH && HeaderAt(states[0], k, o) && o + MinHeader(k) <= MAX_OFFSET ==>
              RegionLength(final, k, o) == RegionLength(states[0], k, o)
  {
    HeadersStay(states, |ORDER|, k);
    LastByteIsFree(states[|ORDER|], k, final[BIOS_OFFSET]);
    hide HeaderAt, RegionLength, Stage;
  }

  // ---------- runs that change nothing ----------

  /** Every header found exactly once has the checksum that the fixer would give it. */
  ghost predicate Balanced(data: seq<Byte>)
    requires |data| == LENGTH
  {
    forall k, off: nat :: OnlyHeader(data, k, off) && Fits(data, k, off) ==> Balances(data, k, off, data[off + ChecksumAt(k)])
  }

  lemma OneValueBalances(data: seq<Byte>, k: Kind, off: nat, v: Byte, v': Byte)
    requires |data| == LENGTH && Fits(data, k, off) && Balances(data, k, off, v) && Balances(data, k, off, v')
    ensures v == v'
  {
    hide RegionLength, SumWithout;
  }

  lemma StageFits(data: seq<Byte>, k: Kind, data': seq<Byte>, off: nat)
    requires Stage(data, k, data') && OnlyHeader(data, k, off)
    ensures Acceptable(data, k, off) && Fits(data, k, off) && off + MinHeader(k) <= MAX_OFFSET
  {}

  lemma BalancedStage(data: seq<Byte>, k: Kind, data': seq<Byte>)
    requires Stage(data, k, data') && Balanced(data)
    ensures data' == data
  {
    hide HeaderAt, Balances, Fits;
    if off: nat :| OnlyHeader(data, k, off) {
      StageFits(data, k, data', off);
      OneValueBalances(data, k, off, data[off + ChecksumAt(k)], data'[off + ChecksumAt(k)]);
    }
  }

  lemma {:induction false} BalancedStays(data: seq<Byte>, states: seq<seq<Byte>>, m: nat)
    requires Staged(states) && states[0] == data && Balanced(data) && m < |states|
    ensures states[m] == data
  {
    hide Balanced, Stage;
    if m > 0 {
      BalancedStays(data, states, m - 1);
      BalancedStage(states[m - 1], ORDER[m - 1], states[m]);
    }
  }

  /** A stage that leaves its image as it is has found it balanced. */
  lemma IdleStage(data: seq<Byte>, k: Kind, off: nat)
    requires Stage(data, k, data) && OnlyHeader(data, k, off)
    ensures off + MinHeader(k) <= MAX_OFFSET && Fits(data, k, off) && Balances(data, k, off, data[off + ChecksumAt(k)])
  {
    assert Acceptable(data, k, off);
  }

  lemma {:induction false} IdleRun(states: seq<seq<Byte>>, final: seq<Byte>, m: nat)
    requires Completed(states, final) && final == states[0] && m < |states|
    ensures states[m] == final
  {
    hide HeaderAt, Balances, Fits;
    if m > 0 {
      IdleRun(states, final, m - 1);
      var k := ORDER[m - 1];
      assert Stage(final, k, states[m]);
      if off: nat :| OnlyHeader(final, k, off) {
        StageFits(final, k, states[m], off);
        OwnByteStays(states, final, m - 1, off);
      }
    }
  }

  function Position(k: Kind): (n: nat)
    ensures n < |ORDER| && ORDER[n] == k
  {
    match k
    case Pci32 => 0
    case Mp => 1
    case Pcmp => 2
    case Pir => 3
    case Pnp => 4
  }

  /** A balanced image whose bytes sum to zero comes out as it went in. */
  lemma BalancedAndComplete(states: seq<seq<Byte>>, final: seq<Byte>)
    requires Completed(states, final) && Balanced(states[0]) && Sum(states[0], 0, LENGTH) % 256 == 0
    ensures final == states[0]
  {
    BalancedStays(states[0], states, |ORDER|);
    SumAfterUpdate(states[0], BIOS_OFFSET, final[BIOS_OFFSET], 0, LENGTH);
  }

  /** A completed run changes nothing if and only if every header found once balances and so does the image. */
  lemma ChangesNothingIffBalanced(states: seq<seq<Byte>>, final: seq<Byte>)
    requires Completed(states, final)
    ensures final == states[0] <==> Balanced(states[0]) && Sum(states[0], 0, LENGTH) % 256 == 0
  {
    hide OnlyHeader, Balances, Fits;
    if final == states[0] {
      forall k, off: nat | OnlyHeader(states[0], k, off)
        ensures off + MinHeader(k) <= MAX_OFFSET && Fits(states[0], k, off)
        ensures Balances(states[0], k, off, states[0][off + ChecksumAt(k)])
      {
        IdleRun(states, final, Position(k));
        IdleRun(states, final, Position(k) + 1);
        assert Stage(states[Position(k)], k, states[Position(k) + 1]);
        IdleStage(states[0], k, off);
      }
    } else if Balanced(states[0]) && Sum(states[0], 0, LENGTH) % 256 == 0 {
      BalancedAndComplete(states, final);
    }
  }

  // ---------- a second run ----------

  /** No header found exactly once has a later kind's checksum in its region. */
  ghost predicate NoLaterChecksumInside(data: seq<Byte>)
    requires |data| == LENGTH
  {
    forall n, off: nat :: 0 <= n < |ORDER| && OnlyHeader(data, ORDER[n], off) && Fits(data, ORDER[n], off) ==>
      LaterOutside(data, n, off, off + RegionLength(data, ORDER[n], off))
  }

  lemma CompletedIsBalanced(states: seq<seq<Byte>>, final: seq<Byte>)
    requires Completed(states, final) && NoLaterChecksumInside(states[0])
    ensures Balanced(final)
  {
    hide HeaderAt, RegionLength, LaterOutside, Balances;
    forall k, off: nat | OnlyHeader(final, k, off) && Fits(final, k, off)
      ensures Balances(final, k, off, final[off + ChecksumAt(k)])
    {
      FinalHeaders(states, final, k);
      assert OnlyHeader(states[0], k, off);
      RegionsBalance(states, final, Position(k), off);
      assert OnlyHeader(states[0], ORDER[Position(k)], off);
    }
  }

  /** The extension fields that the fixer does not support are clear. */
  ghost predicate ExtensionsClear(data: seq<Byte>)
    requires |data| == LENGTH
  {
    forall o: nat :: HeaderAt(data, Pcmp, o) && o + 42 < LENGTH ==> data[o + 40] == 0 && data[o + 41] == 0 && data[o + 42] == 0
  }

  /**
   On the output of a completed run the headers of every kind pass their checks again, those
   of PCMP headers if and only if no checksum was written into their extension fields.
   */
  lemma SecondRunPasses(states: seq<seq<Byte>>, final: seq<Byte>, k: Kind)
    requires Completed(states, final)
    ensures AllAcceptable(final, k) <==> (k == Pcmp ==> ExtensionsClear(final))
  {
    var n := Position(k);
    assert Stage(states[n], k, states[n + 1]);
    HeadersStay(states, n, k);
    FinalHeaders(states, final, k);
    hide Stage, Staged;
    assert forall o :: 0 <= o < LENGTH && HeaderAt(states[0], k, o) ==> Acceptable(states[n], k, o);
    hide HeaderAt, RegionLength;
  }

  lemma StagePassed(states: seq<seq<Byte>>, n: nat)
    requires Staged(states) && n < |states| - 1
    ensures AllAcceptable(states[n], ORDER[n])
  {
    assert Stage(states[n], ORDER[n], states[n + 1]);
  }

  lemma CompletedAgain(states: seq<seq<Byte>>, once: seq<Byte>, again: seq<seq<Byte>>, final: seq<Byte>)
    requires Completed(states, once) && Completed(again, final) && again[0] == once
    ensures final == once <==> Balanced(once)
    ensures final == once ==> ExtensionsClear(once)
  {
    hide Balanced, ExtensionsClear, Stage, AllAcceptable;
    ChangesNothingIffBalanced(again, final);
    if final == once {
      IdleRun(again, final, 2);
      StagePassed(again, 2);
      SecondRunPasses(states, once, Pcmp);
    }
  }

  lemma StoppedAgain(states: seq<seq<Byte>>, once: seq<Byte>, again: seq<seq<Byte>>)
    requires Completed(states, once) && Staged(again) && again[0] == once
    requires |again| <= |ORDER| && !AllAcceptable(again[|again| - 1], ORDER[|again| - 1])
    ensures Balanced(once) ==> again[|again| - 1] == once && !ExtensionsClear(once)
  {
    hide Balanced, ExtensionsClear, Stage, AllAcceptable;
    if Balanced(once) {
      BalancedStays(once, again, |again| - 1);
      SecondRunPasses(states, once, ORDER[|again| - 1]);
    }
  }

  /** Extension fields clear at the start stay clear when no later kind's checksum falls into them. */
  lemma ExtensionsStayClear(states: seq<seq<Byte>>, final: seq<Byte>)
    requires Completed(states, final)
    requires forall o: nat :: HeaderAt(states[0], Pcmp, o) && o + 42 < LENGTH ==> LaterOutside(states[0], 2, o + 40, o + 43)
    ensures ExtensionsClear(final)
  {
    hide LaterOutside;
    FinalHeaders(states, final, Pcmp);
    StagePassed(states, 2);
    HeadersStay(states, 2, Pcmp);
    hide Staged;
    forall o: nat | HeaderAt(final, Pcmp, o) && o + 42 < LENGTH
      ensures final[o + 40] == 0 && final[o + 41] == 0 && final[o + 42] == 0
    {
      assert HeaderAt(states[0], Pcmp, o) && Acceptable(states[2], Pcmp, o);
      ExtensionStays(states, final, o);
    }
  }

  lemma ExtensionStays(states: seq<seq<Byte>>, final: seq<Byte>, o: nat)
    requires Completed(states, final) && o % 16 == 0 && o + 42 < BIOS_OFFSET && LaterOutside(states[0], 2, o + 40, o + 43)
    ensures forall p :: o + 40 <= p < o + 43 ==> final[p] == states[2][p]
  {
    assert Stage(states[2], Pcmp, states[3]);
    hide Stage, LaterOutside;
    BytesStay(states, 3, |ORDER|, 2, o + 40, o + 43);
    forall p | o + 40 <= p < o + 43
      ensures final[p] == states[2][p]
    {
      OwnChecksumElsewhere(states[2], o, p);
      StageKeepsByte(states[2], Pcmp, states[3], p);
    }
  }

  /** The checksum byte of a PCMP header is at 7 past a boundary, its extension fields at 8 to 10. */
  lemma OwnChecksumElsewhere(data: seq<Byte>, o: nat, p: nat)
    requires |data| == LENGTH && o % 16 == 0 && o + 40 <= p < o + 43
    ensures !Target(data, Pcmp, p)
  {}

  // ---------- the five headers in numbers ----------

  /** These four bytes at a 16-byte boundary, other than the first. */
  predicate BytesAt(data: seq<Byte>, o: nat, b0: int, b1: int, b2: int, b3: int)
    requires |data| == 65536
  {
    16 <= o <= 65520 && o % 16 == 0 && data[o] == b0 && data[o + 1] == b1 && data[o + 2] == b2 && data[o + 3] == b3
  }

  /** At this boundary and at no other. */
  ghost predicate OnceAt(data: seq<Byte>, off: nat, b0: int, b1: int, b2: int, b3: int)
    requires |data| == 65536
  {
    BytesAt(data, off, b0, b1, b2, b3) && forall o: nat :: BytesAt(data, o, b0, b1, b2, b3) ==> o == off
  }

  lemma SignatureInNumbers(data: seq<Byte>, k: Kind, o: nat)
    requires |data| == 65536
    ensures HeaderAt(data, k, o) <==>
            match k
            case Pci32 => BytesAt(data, o, 95, 51, 50, 95)
            case Mp => BytesAt(data, o, 95, 77, 80, 95)
            case Pcmp => BytesAt(data, o, 80, 67, 77, 80)
            case Pir => BytesAt(data, o, 36, 80, 73, 82)
            case Pnp => BytesAt(data, o, 36, 80, 110, 80)
  {}

  /** The checks that a header passes before its checksum is computed, in full. */
  lemma ChecksInNumbers(data: seq<Byte>, k: Kind, off: nat)
    requires |data| == 65536
    ensures Acceptable(data, k, off) <==>
            match k
            case Pci32 => off + 16 <= 65535 && off + (16 * data[off + 9] as int) <= 65535
            case Mp => off + 16 <= 65535 && off + (16 * data[off + 8] as int) <= 65535
            case Pcmp => off + 42 <= 65535 && off + (data[off + 4] as int + 256 * data[off + 5] as int) <= 65535
                         && data[off + 40] == data[off + 41] == data[off + 42] == 0
            case Pir => off + 32 <= 65535 && off + (data[off + 6] as int + 256 * data[off + 7] as int) <= 65535
            case Pnp => off + 32 <= 65535 && off + (data[off + 5] as int) <= 65535
  {}

  /** The region sums to zero with its checksum byte, which may lie behind it. */
  predicate SumsToZero(data: seq<Byte>, off: nat, len: nat, checksum: nat)
    requires off + len <= |data| && off + checksum < |data|
  {
    (Sum(data, off, off + len) + if checksum < len then 0 else data[off + checksum]) % 256 == 0
  }

  /** A kind in a completed run: found once, its checksum byte alone may have been written; otherwise nothing. */
  lemma KindInRun(states: seq<seq<Byte>>, final: seq<Byte>, n: nat)
    requires Completed(states, final) && n < |ORDER|
    ensures forall off: nat :: OnlyHeader(states[0], ORDER[n], off) ==>
              && off + ChecksumAt(ORDER[n]) < LENGTH && Fits(states[0], ORDER[n], off)
              && states[n + 1] == states[n][off + ChecksumAt(ORDER[n]) := states[n + 1][off + ChecksumAt(ORDER[n])]]
              && (LaterOutside(states[0], n, off, off + RegionLength(states[0], ORDER[n], off)) ==>
                    SumsToZero(final, off, RegionLength(states[0], ORDER[n], off), ChecksumAt(ORDER[n])))
    ensures (forall off: nat :: !OnlyHeader(states[0], ORDER[n], off)) ==> states[n + 1] == states[n]
  {
    var k := ORDER[n];
    assert Stage(states[n], k, states[n + 1]);
    HeadersStay(states, n, k);
    hide HeaderAt, RegionLength, Staged, LaterOutside;
    forall off: nat | OnlyHeader(states[0], k, off)
      ensures off + ChecksumAt(k) < LENGTH && Fits(states[0], k, off)
      ensures states[n + 1] == states[n][off + ChecksumAt(k) := states[n + 1][off + ChecksumAt(k)]]
      ensures LaterOutside(states[0], n, off, off + RegionLength(states[0], k, off)) ==>
                SumsToZero(final, off, RegionLength(states[0], k, off), ChecksumAt(k))
    {
      OnlyHeaderStays(states, n, k, off);
      StageFits(states[n], k, states[n + 1], off);
      RegionsBalance(states, final, n, off);
    }
    if off: nat :| OnlyHeader(states[n], k, off) {
      HeadersInside(states[n], k);
      assert OnlyHeader(states[0], k, off);
    }
  }

  /** _32_: checksum at 10. */
  lemma Pci32InNumbers(states: seq<seq<Byte>>, final: seq<Byte>)
    requires Completed(states, final)
    ensures forall off: nat :: OnceAt(states[0], off, 95, 51, 50, 95) ==>
              var data := states[0];
              off + 16 <= 65535 &&
              var len := 16 * data[off + 9] as int;
              && off + len <= 65535
              && states[1] == states[0][off + 10 := states[1][off + 10]]
              && (LaterOutside(data, 0, off, off + len) ==> SumsToZero(final, off, len, 10))
    ensures (forall off: nat :: !OnceAt(states[0], off, 95, 51, 50, 95)) ==> states[1] == states[0]
  {
    KindInRun(states, final, 0);
    hide OnceAt, OnlyHeader, LaterOutside, Staged;
    forall off: nat
      ensures OnlyHeader(states[0], Pci32, off) <==> OnceAt(states[0], off, 95, 51, 50, 95)
    {
      OnceIsOnly(states[0], Pci32, off);
    }
    assert forall off: nat :: OnceAt(states[0], off, 95, 51, 50, 95) ==> OnlyHeader(states[0], ORDER[0], off);
  }

  /** _MP_: checksum at 10. */
  lemma MpInNumbers(states: seq<seq<Byte>>, final: seq<Byte>)
    requires Completed(states, final)
    ensures forall off: nat :: OnceAt(states[0], off, 95, 77, 80, 95) ==>
              var data := states[0];
              off + 16 <= 65535 &&
              var len := 16 * data[off + 8] as int;
              && off + len <= 65535
              && states[2] == states[1][off + 10 := states[2][off + 10]]
              && (LaterOutside(data, 1, off, off + len) ==> SumsToZero(final, off, len, 10))
    ensures (forall off: nat :: !OnceAt(states[0], off, 95, 77, 80, 95)) ==> states[2] == states[1]
  {
    KindInRun(states, final, 1);
    hide OnceAt, OnlyHeader, LaterOutside, Staged;
    forall off: nat
      ensures OnlyHeader(states[0], Mp, off) <==> OnceAt(states[0], off, 95, 77, 80, 95)
    {
      OnceIsOnly(states[0], Mp, off);
    }
    assert forall off: nat :: OnceAt(states[0], off, 95, 77, 80, 95) ==> OnlyHeader(states[0], ORDER[1], off);
  }

  /** PCMP: checksum at 7. */
  lemma PcmpInNumbers(states: seq<seq<Byte>>, final: seq<Byte>)
    requires Completed(states, final)
    ensures forall off: nat :: OnceAt(states[0], off, 80, 67, 77, 80) ==>
              var data := states[0];
              off + 42 <= 65535 &&
              var len := data[off + 4] as int + 256 * data[off + 5] as int;
              && off + len <= 65535
              && states[3] == states[2][off + 7 := states[3][off + 7]]
              && (LaterOutside(data, 2, off, off + len) ==> SumsToZero(final, off, len, 7))
    ensures (forall off: nat :: !OnceAt(states[0], off, 80, 67, 77, 80)) ==> states[3] == states[2]
  {
    KindInRun(states, final, 2);
    hide OnceAt, OnlyHeader, LaterOutside, Staged;
    forall off: nat
      ensures OnlyHeader(states[0], Pcmp, off) <==> OnceAt(states[0], off, 80, 67, 77, 80)
    {
      OnceIsOnly(states[0], Pcmp, off);
    }
    assert forall off: nat :: OnceAt(states[0], off, 80, 67, 77, 80) ==> OnlyHeader(states[0], ORDER[2], off);
  }

  /** $PIR: checksum at 31. */
  lemma PirInNumbers(states: seq<seq<Byte>>, final: seq<Byte>)
    requires Completed(states, final)
    ensures forall off: nat :: OnceAt(states[0], off, 36, 80, 73, 82) ==>
              var data := states[0];
              off + 32 <= 65535 &&
              var len := data[off + 6] as int + 256 * data[off + 7] as int;
              && off + len <= 65535
              && states[4] == states[3][off + 31 := states[4][off + 31]]
              && (LaterOutside(data, 3, off, off + len) ==> SumsToZero(final, off, len, 31))
    ensures (forall off: nat :: !OnceAt(states[0], off, 36, 80, 73, 82)) ==> states[4] == states[3]
  {
    KindInRun(states, final, 3);
    hide OnceAt, OnlyHeader, LaterOutside, Staged;
    forall off: nat
      ensures OnlyHeader(states[0], Pir, off) <==> OnceAt(states[0], off, 36, 80, 73, 82)
    {
      OnceIsOnly(states[0], Pir, off);
    }
    assert forall off: nat :: OnceAt(states[0], off, 36, 80, 73, 82) ==> OnlyHeader(states[0], ORDER[3], off);
  }

  /** $PnP: checksum at 8. */
  lemma PnpInNumbers(states: seq<seq<Byte>>, final: seq<Byte>)
    requires Completed(states, final)
    ensures forall off: nat :: OnceAt(states[0], off, 36, 80, 110, 80) ==>
              var data := states[0];
              off + 32 <= 65535 &&
              var len := data[off + 5] as int;
              && off + len <= 65535
              && states[5] == states[4][off + 8 := states[5][off + 8]]
              && (LaterOutside(data, 4, off, off + len) ==> SumsToZero(final, off, len, 8))
    ensures (forall off: nat :: !OnceAt(states[0], off, 36, 80, 110, 80)) ==> states[5] == states[4]
  {
    KindInRun(states, final, 4);
    hide OnceAt, OnlyHeader, LaterOutside, Staged;
    forall off: nat
      ensures OnlyHeader(states[0], Pnp, off) <==> OnceAt(states[0], off, 36, 80, 110, 80)
    {
      OnceIsOnly(states[0], Pnp, off);
    }
    assert forall off: nat :: OnceAt(states[0], off, 36, 80, 110, 80) ==> OnlyHeader(states[0], ORDER[4], off);
  }

  lemma OnceIsOnly(data: seq<Byte>, k: Kind, off: nat)
    requires |data| == 65536
    ensures OnlyHeader(data, k, off) <==>
            match k
            case Pci32 => OnceAt(data, off, 95, 51, 50, 95)
            case Mp => OnceAt(data, off, 95, 77, 80, 95)
            case Pcmp => OnceAt(data, off, 80, 67, 77, 80)
            case Pir => OnceAt(data, off, 36, 80, 73, 82)
            case Pnp => OnceAt(data, off, 36, 80, 110, 80)
  {
    HeadersInside(data, k);
    forall o: nat
      ensures HeaderAt(data, k, o) <==>
              match k
              case Pci32 => BytesAt(data, o, 95, 51, 50, 95)
              case Mp => BytesAt(data, o, 95, 77, 80, 95)
              case Pcmp => BytesAt(data, o, 80, 67, 77, 80)
              case Pir => BytesAt(data, o, 36, 80, 73, 82)
              case Pnp => BytesAt(data, o, 36, 80, 110, 80)
    {
      SignatureInNumbers(data, k, o);
    }
    hide HeaderAt, BytesAt;
    match k {
      case Pci32 =>
        assert forall o: nat :: HeaderAt(data, Pci32, o) <==> BytesAt(data, o, 95, 51, 50, 95);
      case Mp =>
        assert forall o: nat :: HeaderAt(data, Mp, o) <==> BytesAt(data, o, 95, 77, 80, 95);
      case Pcmp =>
        assert forall o: nat :: HeaderAt(data, Pcmp, o) <==> BytesAt(data, o, 80, 67, 77, 80);
      case Pir =>
        assert forall o: nat :: HeaderAt(data, Pir, o) <==> BytesAt(data, o, 36, 80, 73, 82);
      case Pnp =>
        assert forall o: nat :: HeaderAt(data, Pnp, o) <==> BytesAt(data, o, 36, 80, 110, 80);
    }
  }

  lemma HeadersInside(data: seq<Byte>, k: Kind)
    requires |data| == LENGTH
    ensures forall o: nat :: HeaderAt(data, k, o) ==> o < LENGTH
  {}

  /** The image is 64 KiB, and after the five kinds its last byte alone is written. */
  lemma ImageInNumbers(states: seq<seq<Byte>>, final: seq<Byte>)
    requires Completed(states, final)
    ensures |states| == 6 && |final| == 65536 && final == states[5][65535 := final[65535]] && Sum(final, 0, 65536) % 256 == 0
  {}

  // ---------- an image on which a second run stops ----------

  /** A PCMP header at 16 with a region of 16 bytes, a $PnP header at 48 with one of 9, zeros elsewhere. */
  function ClashingByte(i: nat): Byte {
    match i
    case 16 => 80
    case 17 => 67
    case 18 => 77
    case 19 => 80
    case 20 => 16
    case 48 => 36
    case 49 => 80
    case 50 => 110
    case 51 => 80
    case 53 => 9
    case _ => 0
  }

  function ClashingImage(): (data: seq<Byte>)
    ensures |data| == LENGTH && forall i :: 0 <= i < LENGTH ==> data[i] == ClashingByte(i)
  {
    seq(LENGTH, i requires 0 <= i < LENGTH => ClashingByte(i))
  }

  lemma ClashingHeaders(k: Kind, o: nat)
    ensures HeaderAt(ClashingImage(), k, o) <==> (k == Pcmp && o == 16) || (k == Pnp && o == 48)
  {}

  /** The one checksum of each header is the only byte that the run may write. */
  lemma ClashingTargets(k: Kind, p: nat)
    ensures Target(ClashingImage(), k, p) ==> (k == Pcmp && p == 23) || (k == Pnp && p == 56)
  {
    if p >= ChecksumAt(k) {
      ClashingHeaders(k, p - ChecksumAt(k));
    }
    hide HeaderAt, ClashingImage;
  }

  lemma {:induction false} ClashingBytesStay(states: seq<seq<Byte>>, m: nat, p: nat)
    requires Staged(states) && states[0] == ClashingImage() && m < |states| && p < LENGTH
    requires p != 23 && (p == 56 ==> m < |ORDER|)
    ensures states[m][p] == ClashingByte(p)
  {
    hide Stage, Target, ClashingImage;
    if m > 0 {
      ClashingBytesStay(states, m - 1, p);
      ClashingTargets(ORDER[m - 1], p);
      TargetsStay(states, m - 1, ORDER[m - 1], p);
      StageKeepsByte(states[m - 1], ORDER[m - 1], states[m], p);
    }
  }

  /** The regions are disjoint, and a first run passes every check. */
  lemma ClashingImagePasses(states: seq<seq<Byte>>)
    requires Staged(states) && states[0] == ClashingImage() && |states| <= |ORDER|
    ensures NoLaterChecksumInside(states[0])
    ensures AllAcceptable(states[|states| - 1], ORDER[|states| - 1])
  {
    var m := |states| - 1;
    var k := ORDER[m];
    forall k', o
      ensures HeaderAt(states[0], k', o) <==> (k' == Pcmp && o == 16) || (k' == Pnp && o == 48)
    {
      ClashingHeaders(k', o);
    }
    forall k', p
      ensures Target(states[0], k', p) ==> (k' == Pcmp && p == 23) || (k' == Pnp && p == 56)
    {
      ClashingTargets(k', p);
    }
    HeadersStay(states, m, k);
    ClashingBytesStay(states, m, 56);
    ClashingBytesStay(states, m, 57);
    ClashingBytesStay(states, m, 58);
    hide HeaderAt, Target, Stage;
  }

  /** The $PnP header sums to 315 without its checksum. */
  lemma ClashingSum(data: seq<Byte>)
    requires |data| == LENGTH && forall p :: 48 <= p < 56 ==> data[p] == ClashingByte(p)
    ensures SumWithout(data, 48, 9, 8) == 315
  {
    assert Sum(data, 48, 48) == 0;
    assert Sum(data, 48, 50) == 116;
    assert Sum(data, 48, 52) == 306;
    assert Sum(data, 48, 54) == 315;
    assert Sum(data, 48, 56) == 315;
  }

  /** But the first run writes 197 into the PCMP header's extension fields, and a second run stops there. */
  lemma ClashingImageStopsSecondRun(states: seq<seq<Byte>>, final: seq<Byte>)
    requires Completed(states, final) && states[0] == ClashingImage()
    ensures final[56] == 197 && !ExtensionsClear(final) && !AllAcceptable(final, Pcmp)
  {
    ClashingHeaders(Pcmp, 16);
    forall o
      ensures HeaderAt(states[0], Pnp, o) <==> o == 48
    {
      ClashingHeaders(Pnp, o);
    }
    FinalHeaders(states, final, Pcmp);
    OnlyHeaderStays(states, 4, Pnp, 48);
    HeadersStay(states, 4, Pnp);
    assert Stage(states[4], Pnp, states[5]) && Acceptable(states[4], Pnp, 48);
    forall p | 48 <= p < 56
      ensures states[4][p] == ClashingByte(p)
    {
      ClashingBytesStay(states, 4, p);
    }
    ClashingSum(states[4]);
    SecondRunPasses(states, final, Pcmp);
    hide HeaderAt, SumWithout, AllAcceptable;
    assert Balances(states[4], Pnp, 48, states[5][56]);
  }

  // ---------- the scan ----------

  /** What the loop knows after `hits` headers, the last at `offset`. */
  ghost predicate Seen(data: seq<Byte>, k: Kind, hits: nat, offset: nat)
    requires |data| == LENGTH
  {
    && offset < LENGTH
    && (hits == 0 <==> offset == 0)
    && (hits == 0 ==> !HeaderAt(data, k, 0))
    && (hits > 0 ==> HeaderAt(data, k, offset))
    && (hits == 1 ==> forall o :: 0 <= o < offset ==> !HeaderAt(data, k, o))
    && (hits > 1 ==> exists o :: 0 <= o < offset && HeaderAt(data, k, o))
    && (forall o :: 0 <= o <= offset && HeaderAt(data, k, o) ==> Acceptable(data, k, o))
  }

  lemma NothingSeen(data: seq<Byte>, k: Kind)
    requires |data| == LENGTH
    ensures Seen(data, k, 0, 0)
  {}

  lemma OneMoreSeen(data: seq<Byte>, k: Kind, hits: nat, offset: nat, next: nat)
    requires |data| == LENGTH && Seen(data, k, hits, offset)
    requires offset < next < LENGTH && HeaderAt(data, k, next) && Acceptable(data, k, next)
    requires forall o :: offset < o < next ==> !HeaderAt(data, k, o)
    ensures Seen(data, k, hits + 1, next)
  {
    hide HeaderAt, Acceptable;
  }

  lemma AllSeen(data: seq<Byte>, k: Kind, hits: nat, offset: nat)
    requires |data| == LENGTH && Seen(data, k, hits, offset)
    requires forall o :: offset < o < LENGTH ==> !HeaderAt(data, k, o)
    ensures AllAcceptable(data, k)
    ensures if hits == 1 then OnlyHeader(data, k, offset) else !exists off: nat :: OnlyHeader(data, k, off)
  {
    hide Acceptable;
  }

  lemma OneUnacceptable(data: seq<Byte>, k: Kind, offset: nat)
    requires |data| == LENGTH && offset < LENGTH && HeaderAt(data, k, offset) && !Acceptable(data, k, offset)
    ensures !AllAcceptable(data, k)
  {}

  lemma StageByOne(data: seq<Byte>, k: Kind, off: nat, data': seq<Byte>, v: Byte)
    requires |data| == |data'| == LENGTH && AllAcceptable(data, k) && OnlyHeader(data, k, off) && off + ChecksumAt(k) < LENGTH
    requires Acceptable(data, k, off) && Balances(data, k, off, v) && data' == data[off + ChecksumAt(k) := v]
    ensures Stage(data, k, data')
  {
    hide Acceptable, Balances, HeaderAt;
  }

  lemma StageByNone(data: seq<Byte>, k: Kind)
    requires |data| == LENGTH && AllAcceptable(data, k) && !exists off: nat :: OnlyHeader(data, k, off)
    ensures Stage(data, k, data)
  {
    hide Acceptable, Balances, HeaderAt;
  }
}
