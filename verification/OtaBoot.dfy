/** The boot selector: two sectors of "OTA data", of which the one with the larger sequence number
    decides which application slot boots. */
module OtaBoot {
  import opened Common

  const STATE_NEW: u32 := 0
  const STATE_VALID: u32 := 2
  const STATE_INVALID: u32 := 3
  const STATE_ABORTED: u32 := 4
  const STATE_UNDEFINED: u32 := 0xFFFF_FFFF

  datatype Entry = Entry(otaSeq: u32, otaState: u32, crc: u32)

  /** A sector that was erased and not written. */
  const ERASED := Entry(0xFFFF_FFFF, 0xFFFF_FFFF, 0xFFFF_FFFF)

  /** `bootloader_common_ota_select_invalid`. */
  predicate SelectInvalid(e: Entry) {
    e.otaSeq == 0xFFFF_FFFF || e.otaState == STATE_INVALID || e.otaState == STATE_ABORTED
  }

  /** `bootloader_common_ota_select_valid`; the CRC-32 of a sequence number is any function. */
  predicate SelectValid(e: Entry, crc32: u32 -> u32) {
    !SelectInvalid(e) && e.crc == crc32(e.otaSeq)
  }

  /** `bootloader_common_get_active_otadata`. */
  function Active(two: seq<Entry>, crc32: u32 -> u32): (r: int)
    requires |two| == 2
    ensures -1 <= r < 2
  {
    var valid0, valid1 := SelectValid(two[0], crc32), SelectValid(two[1], crc32);
    if valid0 && valid1 then (if two[0].otaSeq >= two[1].otaSeq then 0 else 1)
    else if valid0 then 0
    else if valid1 then 1
    else -1
  }

  datatype Boot = Default | Slot(n: nat)

  /** `esp_ota_get_boot_partition` for `count` OTA slots. */
  function BootOf(two: seq<Entry>, count: nat, crc32: u32 -> u32): Boot
    requires |two| == 2
  {
    if (SelectInvalid(two[0]) && SelectInvalid(two[1])) || count == 0 then Default
    else
      var active := Active(two, crc32);
      if active != -1 then Slot((two[active].otaSeq - 1) % TWO_32 % count) else Default
  }

  /** An entry counts if it was written completely and its image was neither found unusable (state 3) nor
      left unconfirmed (state 4). */
  ghost predicate Counts(e: Entry, crc32: u32 -> u32) {
    e.otaSeq < TWO_32 - 1 && e.otaState !in {3, 4} && e.crc == crc32(e.otaSeq)
  }

  /** The active entry is one that counts, with the largest sequence number, the first of two
      equals; and there is one unless none counts. */
  lemma ActiveIsLargestValid(two: seq<Entry>, crc32: u32 -> u32)
    requires |two| == 2
    ensures Active(two, crc32) == -1 <==> forall k :: 0 <= k < 2 ==> !Counts(two[k], crc32)
    ensures var a := Active(two, crc32);
            a != -1 ==>
              && Counts(two[a], crc32)
              && forall k :: 0 <= k < 2 && Counts(two[k], crc32) ==>
                   two[k].otaSeq <= two[a].otaSeq && (two[k].otaSeq == two[a].otaSeq ==> a <= k)
  {
  }

  /** What boots, by the fields of the entries: the slot of the largest number that counts, and the
      default partition if none does. */
  lemma BootByFields(two: seq<Entry>, count: nat, crc32: u32 -> u32)
    requires |two| == 2 && count > 0
    ensures BootOf(two, count, crc32) == Default <==> forall k :: 0 <= k < 2 ==> !Counts(two[k], crc32)
    ensures forall k :: 0 <= k < 2 && Counts(two[k], crc32)
                        && (Counts(two[1 - k], crc32) ==> two[1 - k].otaSeq <= two[k].otaSeq) ==>
              BootOf(two, count, crc32) == Slot((two[k].otaSeq - 1) % TWO_32 % count)
  {
  }

  /** A single entry is enough to boot its slot, in either sector, exactly if it counts. */
  lemma SingleEntry(e: Entry, count: nat, crc32: u32 -> u32)
    requires count > 0
    ensures BootOf([e, ERASED], count, crc32) == BootOf([ERASED, e], count, crc32)
    ensures BootOf([e, ERASED], count, crc32) == Default <==>
            e.otaSeq == 0xFFFF_FFFF || e.otaState == 3 || e.otaState == 4 || e.crc != crc32(e.otaSeq)
  {
    BootByFields([e, ERASED], count, crc32);
    BootByFields([ERASED, e], count, crc32);
  }

  /** The smallest value from start on that is congruent to s + 1 modulo the number of slots. */
  ghost predicate IsNextSeq(v: int, start: nat, s: nat, count: nat)
    requires count > 0
  {
    && v >= start && v % count == (s + 1) % count
    && forall w :: w >= start && w % count == (s + 1) % count ==> v <= w
  }

  /** Congruent values are at least a whole period apart. */
  lemma CongruentApart(v: nat, w: nat, count: nat)
    requires count > 0 && v % count == w % count && w < v
    ensures w + count <= v
  {
    var d := v / count - w / count;
    assert v == v / count * count + v % count && w == w / count * count + w % count;
    assert d * count == v / count * count - w / count * count;
    AtLeastOnePeriod(d, count);
  }

  lemma ResidueIsLeast(v: nat, start: nat, s: nat, count: nat)
    requires count > 0 && v >= start && v % count == (s + 1) % count && (v < start + count || v < count)
    ensures IsNextSeq(v, start, s, count)
  {
    forall w | w >= start && w % count == (s + 1) % count ensures v <= w {
      if w < v {
        CongruentApart(v, w, count);
      }
    }
  }

  /** That value in closed form. */
  function NextOf(start: nat, s: nat, count: nat): nat
    requires count > 0
  {
    start + (s + 1 - start) % count
  }

  lemma NextOfIsNext(start: nat, s: nat, count: nat)
    requires count > 0
    ensures IsNextSeq(NextOf(start, s, count), start, s, count) && NextOf(start, s, count) < start + count
  {
    var q, d := (s + 1 - start) / count, (s + 1 - start) % count;
    var p, r := (s + 1) / count, (s + 1) % count;
    assert s + 1 - start == q * count + d && s + 1 == p * count + r;
    assert (p - q) * count == p * count - q * count;
    QuotientRemainder(start + d, p - q, r, count);
    ResidueIsLeast(start + d, start, s, count);
  }

  lemma PredMod(v: nat, count: nat)
    requires v > 0 && count > 0
    ensures (v - 1) % count == if v % count == 0 then count - 1 else v % count - 1
  {
    var q, r := v / count, v % count;
    assert v == q * count + r;
    if r == 0 {
      assert (q - 1) * count == q * count - count;
      QuotientRemainder(v - 1, q - 1, count - 1, count);
    } else {
      QuotientRemainder(v - 1, q, r - 1, count);
    }
  }

  /** Which slot a sequence number stands for, when it was chosen for slot s. */
  lemma SlotOfSeq(v: u32, s: nat, count: nat)
    requires s < count && v % count == (s + 1) % count
    ensures (v - 1) % TWO_32 % count == s <==> !(v == 0 && TWO_32 % count != 0)
  {
    QuotientRemainder(s + 1, if s + 1 == count then 1 else 0, if s + 1 == count then 0 else s + 1, count);
    if v == 0 {
      assert 0 % count == 0 by { QuotientRemainder(0, 0, 0, count); }
      PredMod(TWO_32, count);
    } else {
      PredMod(v, count);
    }
  }

  /** Whatever replaces an entry that is not the active one changes nothing unless it is valid. */
  lemma BrokenEntryIsIgnored(two: seq<Entry>, at: nat, left: Entry, count: nat, crc32: u32 -> u32)
    requires |two| == 2 && at < 2 && at != Active(two, crc32) && !SelectValid(left, crc32)
    ensures BootOf(two[at := left], count, crc32) == BootOf(two, count, crc32)
    ensures var now := two[at := left];
            && Active(now, crc32) == Active(two, crc32)
            && (Active(two, crc32) != -1 ==> now[Active(now, crc32)] == two[Active(two, crc32)])
  {
  }

  /** The sequence number in force; 0 when no entry is valid. */
  function ActiveSeq(two: seq<Entry>, crc32: u32 -> u32): u32
    requires |two| == 2
  {
    var active := Active(two, crc32);
    if active == -1 then 0 else two[active].otaSeq
  }

  predicate UsableState(state: u32) {
    state != STATE_INVALID && state != STATE_ABORTED
  }

  /** A new entry beside the active one takes over if its number is not smaller, ties included. */
  lemma NewEntryTakesOver(two: seq<Entry>, v: u32, state: u32, count: nat, crc32: u32 -> u32)
    requires |two| == 2 && count > 0 && UsableState(state) && Active(two, crc32) != -1
    requires ActiveSeq(two, crc32) <= v < TWO_32 - 1
    ensures var now := two[1 - Active(two, crc32) := Entry(v, state, crc32(v))];
            && Active(now, crc32) != -1 && ActiveSeq(now, crc32) == v
            && BootOf(now, count, crc32) == Slot((v - 1) % TWO_32 % count)
  {
  }

  lemma NewEntryFallsBack(two: seq<Entry>, v: u32, state: u32, count: nat, crc32: u32 -> u32)
    requires |two| == 2 && count > 0 && UsableState(state) && Active(two, crc32) != -1
    requires ActiveSeq(two, crc32) <= v < TWO_32 - 1
    ensures var now := two[1 - Active(two, crc32) := Entry(v, state, crc32(v))];
            && Active(now, crc32) != -1
            && BootOf(now[Active(now, crc32) := ERASED], count, crc32) == BootOf(two, count, crc32)
  {
  }

  lemma FirstEntryFallsBack(two: seq<Entry>, state: u32, s: nat, count: nat, crc32: u32 -> u32)
    requires |two| == 2 && s < count < TWO_32 - 1 && UsableState(state) && Active(two, crc32) == -1
    ensures var now := two[0 := Entry(s + 1, state, crc32(s + 1))];
            && Active(now, crc32) == 0
            && BootOf(now[0 := ERASED], count, crc32) == BootOf(two, count, crc32)
  {
  }

  lemma FirstEntryTakesOver(two: seq<Entry>, state: u32, s: nat, count: nat, crc32: u32 -> u32)
    requires |two| == 2 && s < count < TWO_32 - 1 && UsableState(state) && Active(two, crc32) == -1
    ensures var now := two[0 := Entry(s + 1, state, crc32(s + 1))];
            && Active(now, crc32) != -1 && ActiveSeq(now, crc32) == s + 1
            && BootOf(now, count, crc32) == Slot(s)
  {
    SlotOfSeq(s + 1, s, count);
  }

  /** Rollback: once the state of a new entry says that its image is unusable or was not confirmed,
      the earlier choice and number are in force again; in any other state the new one stays. */
  lemma RollBack(two: seq<Entry>, at: nat, e: Entry, state: u32, count: nat, crc32: u32 -> u32)
    requires |two| == 2 && at < 2 && at != Active(two, crc32) && Counts(e, crc32)
    ensures var now, marked := two[at := e], two[at := e.(otaState := state)];
            if state == 3 || state == 4
            then BootOf(marked, count, crc32) == BootOf(two, count, crc32)
                 && (Active(two, crc32) != -1 ==> ActiveSeq(marked, crc32) == ActiveSeq(two, crc32))
            else BootOf(marked, count, crc32) == BootOf(now, count, crc32)
                 && ActiveSeq(marked, crc32) == ActiveSeq(now, crc32)
  {
  }

  /** The next number is 0 only for the last slot after number 0. */
  lemma NextSeqIsZero(v: nat, start: nat, s: nat, count: nat)
    requires s < count && IsNextSeq(v, start, s, count)
    ensures v == 0 <==> start == 0 && s == count - 1
  {
    QuotientRemainder(s + 1, if s + 1 == count then 1 else 0, if s + 1 == count then 0 else s + 1, count);
    QuotientRemainder(0, 0, 0, count);
  }

  /** With three slots and number 0 in force, choosing slot 2 keeps number 0, which boots slot 0. */
  lemma SlotNotSelected(crc32: u32 -> u32)
    ensures var zero := Entry(0, STATE_UNDEFINED, crc32(0));
            && Active([zero, ERASED], crc32) == 0 && IsNextSeq(0, 0, 2, 3)
            && BootOf([zero, zero], 3, crc32) == Slot(0)
  {
    ResidueIsLeast(0, 0, 2, 3);
  }

  /** When the next number would be all ones or more, the slot in force is a different one; and the
      all-ones number is not taken for an entry, so a change that arrives at it has no effect. */
  lemma AllOnesIsNoChange(two: seq<Entry>, state: u32, s: nat, count: nat, crc32: u32 -> u32)
    requires |two| == 2 && s < count <= 16 && Active(two, crc32) != -1
    requires NextOf(ActiveSeq(two, crc32), s, count) >= TWO_32 - 1
    ensures !SelectValid(Entry(TWO_32 - 1, state, crc32(TWO_32 - 1)), crc32)
    ensures BootOf(two, count, crc32) != Slot(s)
  {
    var a := ActiveSeq(two, crc32);
    NextOfIsNext(a, s, count);
    assert a % count != (s + 1) % count;
    SlotOfNumber(a, s, count);
  }

  /** A number other than 0 stands for slot s exactly if it is congruent to s + 1. */
  lemma SlotOfNumber(v: u32, s: nat, count: nat)
    requires v > 0 && s < count
    ensures (v - 1) % TWO_32 % count == s <==> v % count == (s + 1) % count
  {
    PredMod(v, count);
    QuotientRemainder(s + 1, if s + 1 == count then 1 else 0, if s + 1 == count then 0 else s + 1, count);
  }

  // ---- The search in unsigned 32-bit arithmetic ----

  function Wrap32(n: int): u32 {
    n % TWO_32
  }

  /** What the search compares in round i. */
  function At(s: nat, count: nat, i: nat): u32
    requires count > 0
  {
    Wrap32((s + 1) % count + i * count)
  }

  ghost predicate SearchEnds(start: u32, s: nat, count: nat)
    requires count > 0
  {
    exists i: nat :: start <= At(s, count, i)
  }

  /** The search stops in round i with v. */
  ghost predicate StopsAt(v: u32, start: u32, s: nat, count: nat, i: nat)
    requires count > 0
  {
    v == At(s, count, i) && start <= v && forall j: nat :: j < i ==> start > At(s, count, j)
  }

  ghost predicate IsFound(v: u32, start: u32, s: nat, count: nat)
    requires count > 0
  {
    exists i: nat :: StopsAt(v, start, s, count, i)
  }

  /** Without a wrap a round compares a number for the slot. */
  lemma AtWithoutWrap(s: nat, count: nat, i: nat)
    requires count > 0 && (s + 1) % count + i * count < TWO_32
    ensures At(s, count, i) == (s + 1) % count + i * count && At(s, count, i) % count == (s + 1) % count
  {
    QuotientRemainder((s + 1) % count + i * count, i, (s + 1) % count, count);
  }

  /** A next number that fits 32 bits is found. */
  lemma NextIsReached(start: u32, s: nat, count: nat) returns (i: nat)
    requires count > 0 && NextOf(start, s, count) < TWO_32
    ensures StopsAt(NextOf(start, s, count), start, s, count, i)
  {
    var next, r := NextOf(start, s, count), (s + 1) % count;
    NextOfIsNext(start, s, count);
    i := next / count;
    assert next == i * count + r;
    AtWithoutWrap(s, count, i);
    forall j: nat | j < i ensures start > At(s, count, j) {
      AtLeastOnePeriod(i - j, count);
      assert (i - j) * count == i * count - j * count;
      AtWithoutWrap(s, count, j);
    }
  }

  lemma FoundIsNext(v: u32, start: u32, s: nat, count: nat)
    requires count > 0 && IsFound(v, start, s, count) && NextOf(start, s, count) < TWO_32
    ensures v == NextOf(start, s, count)
  {
    hide At, NextOf;
    var k: nat :| StopsAt(v, start, s, count, k);
    var i := NextIsReached(start, s, count);
  }

  /** If the next number does not fit 32 bits, no number that fits stands for the slot: a search
      that wraps around never finds it. */
  lemma NoNumberForSlot(v: u32, start: u32, s: nat, count: nat)
    requires count > 0 && NextOf(start, s, count) >= TWO_32 && start <= v
    ensures v % count != (s + 1) % count
  {
    NextOfIsNext(start, s, count);
  }

  function Pow2(k: nat): nat {
    if k == 0 then 1 else 2 * Pow2(k - 1)
  }

  /** Odd numbers have an inverse modulo every power of two. */
  lemma {:induction false} OddInverse(m: nat, k: nat) returns (x: nat, c: int)
    requires m % 2 == 1
    ensures x * m == 1 + c * Pow2(k)
    decreases k
  {
    if k == 0 {
      x, c := 1, m - 1;
    } else {
      var x', c' := OddInverse(m, k - 1);
      var p := Pow2(k - 1);
      if c' % 2 == 0 {
        x, c := x', c' / 2;
        assert c' == 2 * c;
        assert c * (2 * p) == (2 * c) * p;
      } else {
        x, c := x' + p, (c' + m) / 2;
        assert c' + m == 2 * c;
        assert (x' + p) * m == x' * m + p * m;
        assert (c' + m) * p == c' * p + m * p;
        assert c * (2 * p) == (2 * c) * p;
      }
    }
  }

  /** Reducing modulo a divisor of the slot count, or of 2^32, in between changes nothing. */
  lemma ModOfMod(n: int, d: nat, k: nat, g: nat)
    requires g > 0 && d > 0 && d == k * g
    ensures n % d % g == n % g
  {
    var q := n / d;
    assert n == q * d + n % d && n == n / g * g + n % g;
    assert q * (k * g) == (q * k) * g;
    assert (n / g - q * k) * g == n / g * g - (q * k) * g;
    QuotientRemainder(n % d, n / g - q * k, n % g, g);
  }

  lemma AtModulo(s: nat, g: nat, m: nat, i: nat)
    requires g > 0 && m > 0 && TWO_32 % g == 0 && g * m > 0
    ensures At(s, g * m, i) % g == (s + 1) % g
  {
    var count := g * m;
    var r := (s + 1) % count;
    assert TWO_32 == TWO_32 / g * g;
    ModOfMod(r + i * count, TWO_32, TWO_32 / g, g);
    ModOfMod(s + 1, count, m, g);
    assert i * (g * m) == (i * m) * g;
    assert r == r / g * g + r % g;
    assert (r / g + i * m) * g == r / g * g + (i * m) * g;
    QuotientRemainder(r + i * count, r / g + i * m, r % g, g);
  }

  /** When g divides the slot count and 2^32, and the next number modulo g would not fit 32 bits,
      the search never ends. */
  lemma SearchNeverEnds(start: u32, s: nat, g: nat, m: nat, i: nat)
    requires g > 0 && m > 0 && TWO_32 % g == 0 && g * m > 0 && NextOf(start, s, g) >= TWO_32
    ensures start > At(s, g * m, i)
  {
    hide At, NextOf;
    AtModulo(s, g, m, i);
    NextOfIsNext(start, s, g);
  }

  /** When m is odd, the search reaches every number that is congruent modulo g. */
  lemma SearchReaches(w: u32, s: nat, g: nat, m: nat) returns (i: nat)
    requires g > 0 && m % 2 == 1 && g * m > 0 && w % g == (s + 1) % g
    ensures At(s, g * m, i) == w
  {
    hide Wrap32;
    var r := (s + 1) % (g * m);
    ModOfMod(s + 1, g * m, m, g);
    var k := Distance(w, r, g);
    var x, c := OddInverse(m, 32);
    Pow2Of32();
    i := k % TWO_32 * x;
    Rounds(w, r, k, x, c, g, m, i);
  }

  lemma Pow2Of32()
    ensures Pow2(32) == TWO_32
  {
    assert Pow2(8) == 0x100;
    assert Pow2(16) == 0x1_0000;
    assert Pow2(24) == 0x100_0000;
  }

  lemma Distance(w: int, r: int, g: nat) returns (k: int)
    requires g > 0 && w % g == r % g
    ensures w == r + k * g
  {
    k := w / g - r / g;
    assert w == w / g * g + w % g && r == r / g * g + r % g;
    assert k * g == w / g * g - r / g * g;
  }

  lemma Rounds(w: u32, r: nat, k: int, x: nat, c: int, g: nat, m: nat, i: nat)
    requires w == r + k * g && x * m == 1 + c * TWO_32 && i == k % TWO_32 * x
    ensures Wrap32(r + i * (g * m)) == w
  {
    var kk, q := k % TWO_32, k / TWO_32;
    WrappedProduct(kk, q, k, x, c, g, m);
    QuotientRemainder(r + i * (g * m), kk * g * c - q * g, w, TWO_32);
  }

  lemma WrappedProduct(kk: nat, q: int, k: int, x: nat, c: int, g: nat, m: nat)
    requires k == q * TWO_32 + kk && x * m == 1 + c * TWO_32
    ensures kk * x * (g * m) == k * g + (kk * g * c - q * g) * TWO_32
  {
    var kg := kk * g;
    assert kk * x * (g * m) == kg * (x * m);
    assert kg * (1 + c * TWO_32) == kg + (kg * c) * TWO_32;
    assert k * g == q * g * TWO_32 + kg;
  }

  /** The search ends if and only if the next number modulo the power-of-two part of the slot
      count fits 32 bits. */
  lemma SearchEndsExactly(start: u32, s: nat, g: nat, m: nat)
    requires g > 0 && m % 2 == 1 && TWO_32 % g == 0 && g * m > 0
    ensures SearchEnds(start, s, g * m) <==> NextOf(start, s, g) < TWO_32
  {
    hide At, NextOf;
    NextOfIsNext(start, s, g);
    if NextOf(start, s, g) < TWO_32 {
      var i := SearchReaches(NextOf(start, s, g), s, g, m);
      assert start <= At(s, g * m, i);
    } else {
      forall i: nat ensures start > At(s, g * m, i) {
        SearchNeverEnds(start, s, g, m, i);
      }
    }
  }

  /** What a number that the search found stands for. */
  lemma FoundStandsForSlot(v: u32, start: u32, s: nat, count: nat)
    requires s < count <= 16 && IsFound(v, start, s, count) && v < TWO_32 - 1
    ensures start <= v
    ensures (v - 1) % TWO_32 % count == s <==>
            !((start == 0 && s == count - 1 && TWO_32 % count != 0) || NextOf(start, s, count) >= TWO_32 - 1)
  {
    hide At;
    NextOfIsNext(start, s, count);
    if NextOf(start, s, count) < TWO_32 {
      FoundIsNext(v, start, s, count);
      NextSeqIsZero(v, start, s, count);
      SlotOfSeq(v, s, count);
    } else {
      NoNumberForSlot(v, start, s, count);
      SlotOfNumber(v, s, count);
    }
  }

  lemma FoundAllOnes(v: u32, start: u32, s: nat, count: nat)
    requires s < count && IsFound(v, start, s, count) && v == TWO_32 - 1
    ensures NextOf(start, s, count) >= TWO_32 - 1
  {
    hide At;
    if NextOf(start, s, count) < TWO_32 {
      FoundIsNext(v, start, s, count);
    }
  }

  /** The largest power of two that divides the slot count. */
  function TwoPart(count: nat): (g: nat)
    requires 0 < count <= 16
    ensures g > 0 && count % g == 0 && count / g % 2 == 1 && TWO_32 % g == 0
  {
    if count % 16 == 0 then 16 else if count % 8 == 0 then 8 else if count % 4 == 0 then 4
    else if count % 2 == 0 then 2 else 1
  }

  lemma SearchEndsForCount(start: u32, s: nat, count: nat)
    requires 0 < count <= 16
    ensures SearchEnds(start, s, count) <==> NextOf(start, s, TwoPart(count)) < TWO_32
    ensures NextOf(start, s, count) < TWO_32 ==> SearchEnds(start, s, count)
  {
    var g := TwoPart(count);
    assert count == g * (count / g);
    SearchEndsExactly(start, s, g, count / g);
    if NextOf(start, s, count) < TWO_32 {
      var i := NextIsReached(start, s, count);
    }
  }

  // ---- Concrete states in which setting a slot does not select it, or does not return ----

  /** With three slots and number 2^32 - 2 in force, slot 1 boots.  Choosing slot 2 arrives at the
      all-ones number, and slot 1 still boots. */
  lemma AllOnesNotSelected(crc32: u32 -> u32)
    ensures var e := Entry(TWO_32 - 2, STATE_UNDEFINED, crc32(TWO_32 - 2));
            var ones := Entry(TWO_32 - 1, STATE_UNDEFINED, crc32(TWO_32 - 1));
            && Active([e, ERASED], crc32) == 0 && BootOf([e, ERASED], 3, crc32) == Slot(1)
            && NextOf(TWO_32 - 2, 2, 3) == TWO_32 - 1
            && BootOf([e, ones], 3, crc32) == Slot(1)
  {
  }

  /** Choosing slot 0 in the same state wraps around, and after 2863311530 rounds arrives at the
      all-ones number too. */
  lemma WrappedNotSelected()
    ensures NextOf(TWO_32 - 2, 0, 3) >= TWO_32
    ensures IsFound(TWO_32 - 1, TWO_32 - 2, 0, 3)
  {
    forall j: nat | j < 2863311530 ensures TWO_32 - 2 > At(0, 3, j) {
    }
    assert StopsAt(TWO_32 - 1, TWO_32 - 2, 0, 3, 2863311530);
  }

  /** With twelve slots and number 2^32 - 2 in force, choosing slot 0 never returns. */
  lemma EndlessSearch()
    ensures !SearchEnds(TWO_32 - 2, 0, 12)
  {
    SearchEndsForCount(TWO_32 - 2, 0, 12);
  }

  /** What the power supply does while the otadata is being rewritten. */
  datatype Power = Steady | CutAfterErase | CutInWrite(left: Entry)

  datatype Outcome = Ok | InvalidArg | PowerLost | NotRunningOta | RollbackFailed

  /** The two sectors and the code that rewrites them. */
  class BootSelector {
    const count: nat             // esp_ota_get_app_partition_count
    const crc32: u32 -> u32      // bootloader_common_ota_select_crc
    const monitored: bool        // CONFIG_BOOTLOADER_APP_ROLLBACK_ENABLE
    const otadata: array<Entry>

    ghost predicate Valid() {
      count <= 16 && otadata.Length == 2
    }

    /** `set_new_state_otadata`. */
    function NewState(): u32 {
      if monitored then STATE_NEW else STATE_UNDEFINED
    }

    ghost function Selected(): Boot
      requires Valid()
      reads otadata
    {
      BootOf(otadata[..], count, crc32)
    }

    ghost function InForce(): u32
      requires Valid()
      reads otadata
    {
      ActiveSeq(otadata[..], crc32)
    }

    ghost predicate NoneValid()
      requires Valid()
      reads otadata
    {
      Active(otadata[..], crc32) == -1
    }

    constructor (count: nat, crc32: u32 -> u32, monitored: bool, otadata: array<Entry>)
      requires count <= 16 && otadata.Length == 2
      ensures Valid() && this.count == count && this.crc32 == crc32
      ensures this.monitored == monitored && this.otadata == otadata
    {
      this.count, this.crc32, this.monitored, this.otadata := count, crc32, monitored, otadata;
    }

    /** The search in `esp_rewrite_ota_data`, in unsigned 32-bit arithmetic. */
    method NextSeq(start: u32, s: nat) returns (v: u32)
      requires s < count && SearchEnds(start, s, count)
      ensures IsFound(v, start, s, count)
      ensures NextOf(start, s, count) < TWO_32 ==> v == NextOf(start, s, count)
    {
      ghost var last: nat :| start <= At(s, count, last);
      var i := 0;
      while start > Wrap32((s + 1) % count + i * count)
        invariant i <= last && forall j: nat :: j < i ==> start > At(s, count, j)
        decreases last - i
      {
        assert start > At(s, count, i);
        i := i + 1;
      }
      v := Wrap32((s + 1) % count + i * count);
      assert StopsAt(v, start, s, count, i);
      if NextOf(start, s, count) < TWO_32 {
        FoundIsNext(v, start, s, count);
      }
    }

    /** `rewrite_ota_seq`: erases the sector, then writes the entry. */
    method RewriteOtaSeq(v: u32, state: u32, secId: nat, power: Power) returns (out: Outcome)
      requires Valid() && secId < 2
      requires power.CutInWrite? ==> !SelectValid(power.left, crc32)
      modifies otadata
      ensures out == if power == Steady then Ok else PowerLost
      ensures out == Ok ==> otadata[..] == old(otadata[..])[secId := Entry(v, state, crc32(v))]
      ensures out == PowerLost ==>
                && otadata[..] == old(otadata[..])[secId := if power.CutInWrite? then power.left else ERASED]
                && !SelectValid(otadata[secId], crc32)
    {
      var entry := Entry(v, state, crc32(v));
      otadata[secId] := ERASED;
      match power
      case CutAfterErase =>
        return PowerLost;
      case CutInWrite(left) =>
        otadata[secId] := left;
        return PowerLost;
      case Steady =>
        otadata[secId] := entry;
        return Ok;
    }

    /** What would boot without the entry in force. */
    ghost function Fallback(): Boot
      requires Valid()
      reads otadata
    {
      if NoneValid() then Selected() else BootOf(otadata[..][Active(otadata[..], crc32) := ERASED], count, crc32)
    }

    /** Which slot a number in force boots. */
    lemma SelectedSlot()
      requires Valid() && !NoneValid() && count > 0
      ensures Selected() == Slot((InForce() - 1) % TWO_32 % count)
    {
    }

    lemma SelectedByNumber()
      requires Valid()
      ensures NoneValid() || count == 0 ==> Selected() == Default
      ensures !NoneValid() && count > 0 ==> Selected() == Slot((InForce() - 1) % TWO_32 % count)
    {
    }

    /** The states and slots for which setting the slot does not select it. */
    ghost predicate NotSelectable(s: nat)
      requires Valid() && s < count
      reads otadata
    {
      && !NoneValid()
      && ((InForce() == 0 && s == count - 1 && TWO_32 % count != 0) || NextOf(InForce(), s, count) >= TWO_32 - 1)
    }

    /** `esp_rewrite_ota_data`, the core of `esp_ota_set_boot_partition`. */
    method SetBoot(s: nat, power: Power) returns (out: Outcome)
      requires Valid() && s < 16
      requires s < count && !NoneValid() ==> SearchEnds(InForce(), s, count)
      requires power.CutInWrite? ==> !SelectValid(power.left, crc32)
      modifies otadata
      ensures out == if s >= count then InvalidArg else if power == Steady then Ok else PowerLost
      ensures out == InvalidArg ==> otadata[..] == old(otadata[..])
      // an interrupted change leaves the previous choice in force
      ensures out != Ok ==>
                Selected() == old(Selected()) && InForce() == old(InForce()) && NoneValid() == old(NoneValid())
      // the new number is the one that the search finds, which is the next one if that fits 32 bits
      ensures out == Ok ==> !NoneValid()
      ensures out == Ok && old(NoneValid()) ==> InForce() == s + 1
      ensures out == Ok && !old(NoneValid()) ==>
                exists v: u32 ::
                  && IsFound(v, old(InForce()), s, count)
                  && (NextOf(old(InForce()), s, count) < TWO_32 ==> v == NextOf(old(InForce()), s, count))
                  && InForce() == if v == TWO_32 - 1 then old(InForce()) else v
      // the new image is monitored if that is configured, and not limited otherwise
      ensures out == Ok ==>
                var at := if old(NoneValid()) then 0 else 1 - old(Active(otadata[..], crc32));
                otadata[..] == old(otadata[..])[at := otadata[at]]
                && otadata[at].otaState == if monitored then 0 else 0xFFFF_FFFF
      // the choice that was in force before is what a rollback leads to
      ensures out == Ok && (old(NoneValid()) || NextOf(old(InForce()), s, count) < TWO_32 - 1) ==>
                Fallback() == old(Selected())
      // setting a slot selects it, with these exceptions and no other
      ensures out == Ok ==> (Selected() == Slot(s) <==> !old(NotSelectable(s)))
    {
      hide BootOf, SelectValid, SelectInvalid, IsNextSeq, NextOf, IsFound, SearchEnds;
      if s >= count {
        return InvalidArg;
      }
      ghost var two := otadata[..];
      var active := Active(otadata[..], crc32);
      if active != -1 {
        var v := NextSeq(otadata[active].otaSeq, s);
        out := RewriteOtaSeq(v, NewState(), 1 - active, power);
        if out != Ok {
          BrokenEntryIsIgnored(two, 1 - active, otadata[1 - active], count, crc32);
        } else if v == TWO_32 - 1 {
          FoundAllOnes(v, two[active].otaSeq, s, count);
          AllOnesIsNoChange(two, NewState(), s, count, crc32);
          BrokenEntryIsIgnored(two, 1 - active, otadata[1 - active], count, crc32);
        } else {
          FoundStandsForSlot(v, two[active].otaSeq, s, count);
          NewEntryTakesOver(two, v, NewState(), count, crc32);
          NewEntryFallsBack(two, v, NewState(), count, crc32);
        }
      } else {
        out := RewriteOtaSeq(s + 1, NewState(), 0, power);
        if out == Ok {
          FirstEntryTakesOver(two, NewState(), s, count, crc32);
          FirstEntryFallsBack(two, NewState(), s, count, crc32);
        } else {
          BrokenEntryIsIgnored(two, 0, otadata[0], count, crc32);
        }
      }
    }

    /** `esp_ota_check_rollback_is_possible`; `verified` says for which choices there is a partition
        with a sound image. */
    method RollbackIsPossible(verified: Boot -> bool) returns (possible: bool)
      requires Valid()
      ensures possible <==> count > 0 && !NoneValid() && verified(Fallback())
    {
      var active := Active(otadata[..], crc32);
      if count == 0 || active == -1 {
        return false;
      }
      var last := 1 - active;
      if !SelectValid(otadata[last], crc32) {
        return verified(Default);
      }
      possible := verified(Slot((otadata[last].otaSeq - 1) % TWO_32 % count));
    }

    /** `esp_ota_current_ota_is_workable`: confirms the entry in force, or rolls back.  Both rewrite
        that entry in place, so a power cut loses the confirmed choice too. */
    method CurrentIsWorkable(valid: bool, verified: Boot -> bool, power: Power) returns (out: Outcome)
      requires Valid()
      requires power.CutInWrite? ==> !SelectValid(power.left, crc32)
      modifies otadata
      ensures old(NoneValid()) || count == 0 ==> out == NotRunningOta
      ensures !old(NoneValid()) && count > 0 && !valid ==>
                if !verified(old(Fallback())) then out == RollbackFailed
                else out == (if power == Steady then Ok else PowerLost) && Selected() == old(Fallback())
      ensures !old(NoneValid()) && count > 0 && valid && out == Ok ==>
                && Selected() == old(Selected()) && InForce() == old(InForce()) && Fallback() == old(Fallback())
                && !NoneValid() && otadata[Active(otadata[..], crc32)].otaState == 2
      ensures out == PowerLost ==> power != Steady && Selected() == old(Fallback())
      ensures out == NotRunningOta || out == RollbackFailed ==> otadata[..] == old(otadata[..])
      ensures valid && out != Ok ==> out == NotRunningOta || out == PowerLost
    {
      ghost var two := otadata[..];
      var active := Active(otadata[..], crc32);
      out := Ok;
      if active != -1 && count != 0 {
        if valid && otadata[active].otaState != STATE_VALID {
          out := RewriteOtaSeq(otadata[active].otaSeq, STATE_VALID, active, power);
          MarkedEntry(two, otadata[active], count, crc32);
        } else if !valid {
          var possible := RollbackIsPossible(verified);
          if !possible {
            return RollbackFailed;
          }
          out := RewriteOtaSeq(otadata[active].otaSeq, STATE_INVALID, active, power);
          MarkedEntry(two, otadata[active], count, crc32);
        }
      } else {
        out := NotRunningOta;
      }
    }
  }

  /** What replaces the active entry either keeps its number and counts, or does not count. */
  lemma MarkedEntry(two: seq<Entry>, e: Entry, count: nat, crc32: u32 -> u32)
    requires |two| == 2 && count > 0 && Active(two, crc32) != -1
    ensures var active := Active(two, crc32); var now := two[active := e];
            && (!SelectValid(e, crc32) ==> BootOf(now, count, crc32) == BootOf(two[active := ERASED], count, crc32))
            && (SelectValid(e, crc32) && e.otaSeq == two[active].otaSeq ==>
                  && Active(now, crc32) == active && BootOf(now, count, crc32) == BootOf(two, count, crc32)
                  && now[active := ERASED] == two[active := ERASED])
  {
  }

  /** A rollback undoes a change of the boot slot. */
  method ChangeAndRollBack(sel: BootSelector, s: nat, verified: Boot -> bool) returns (out: Outcome)
    requires sel.Valid() && s < sel.count && verified(sel.Selected())
    requires sel.NoneValid() || NextOf(sel.InForce(), s, sel.count) < TWO_32 - 1
    modifies sel.otadata
    ensures out == Ok && sel.Selected() == old(sel.Selected())
  {
    SearchEndsForCount(sel.InForce(), s, sel.count);
    out := sel.SetBoot(s, Steady);
    out := sel.CurrentIsWorkable(false, verified, Steady);
  }

  /** What boots, and whether number 0 is in force. */
  datatype Choice = Choice(boot: Boot, zero: bool)

  /** A change that goes through decides, but while number 0 is in force choosing the last slot
      keeps that number. */
  ghost function ChosenBy(change: (nat, Power), count: nat, before: Choice): Choice {
    var (s, power) := change;
    if s >= count || power != Steady then before
    else if before.zero && s == count - 1 then Choice(Slot((TWO_32 - 1) % count), true)
    else Choice(Slot(s), false)
  }

  ghost function LastChosen(changes: seq<(nat, Power)>, count: nat, before: Choice): Choice {
    if changes == [] then before
    else ChosenBy(changes[|changes| - 1], count, LastChosen(changes[..|changes| - 1], count, before))
  }

  ghost predicate ZeroInForce(sel: BootSelector)
    requires sel.Valid()
    reads sel.otadata
  {
    !sel.NoneValid() && sel.InForce() == 0
  }

  lemma FoundIsUnique(v: u32, w: u32, start: u32, s: nat, count: nat)
    requires count > 0 && IsFound(v, start, s, count) && IsFound(w, start, s, count)
    ensures v == w
  {
  }

  /** The number that a search which ends finds. */
  ghost function Found(start: u32, s: nat, count: nat): (v: u32)
    requires count > 0 && (exists w: u32 :: IsFound(w, start, s, count))
    ensures IsFound(v, start, s, count)
  {
    var v: u32 :| IsFound(v, start, s, count);
    v
  }

  /** The number in force after one change, given the one before, if any. */
  ghost function NumberAfterOne(change: (nat, Power), count: nat, before: Option<u32>): Option<u32>
    requires count <= 16
  {
    var (s, power) := change;
    if s >= count || power != Steady then before
    else match before
      case None => Some(s + 1)
      case Some(n) =>
        if !exists w: u32 :: IsFound(w, n, s, count) then before
        else if Found(n, s, count) == TWO_32 - 1 then before
        else Some(Found(n, s, count))
  }

  ghost function NumberAfter(changes: seq<(nat, Power)>, count: nat, before: Option<u32>): Option<u32>
    requires count <= 16
  {
    if changes == [] then before
    else NumberAfterOne(changes[|changes| - 1], count, NumberAfter(changes[..|changes| - 1], count, before))
  }

  ghost function NumberOf(sel: BootSelector): Option<u32>
    requires sel.Valid()
    reads sel.otadata
  {
    if sel.NoneValid() then None else Some(sel.InForce())
  }

  /** Every search that a life of the selector makes ends. */
  ghost predicate SearchesEnd(changes: seq<(nat, Power)>, count: nat, before: Option<u32>)
    requires count <= 16
  {
    forall i :: 0 <= i < |changes| && changes[i].0 < count && NumberAfter(changes[..i], count, before).Some? ==>
      SearchEnds(NumberAfter(changes[..i], count, before).value, changes[i].0, count)
  }

  /** One change in a life of the selector. */
  method ApplyChange(sel: BootSelector, change: (nat, Power)) returns (out: Outcome)
    requires sel.Valid() && change.0 < 16
    requires change.1.CutInWrite? ==> !SelectValid(change.1.left, sel.crc32)
    requires change.0 < sel.count && !sel.NoneValid() ==> SearchEnds(sel.InForce(), change.0, sel.count)
    modifies sel.otadata
    ensures NumberOf(sel) == NumberAfterOne(change, sel.count, old(NumberOf(sel)))
    ensures NextOf(old(sel.InForce()), change.0, Max1(sel.count)) < TWO_32 - 1 ==>
              && Choice(sel.Selected(), ZeroInForce(sel)) ==
                 ChosenBy(change, sel.count, old(Choice(sel.Selected(), ZeroInForce(sel))))
              && sel.InForce() <= old(sel.InForce()) + 16
    ensures NumberOf(sel).None? ==> sel.Selected() == old(sel.Selected())
  {
    hide BootOf, SelectValid, SelectInvalid, Active, ActiveSeq, NextOf, IsNextSeq, IsFound, SearchEnds;
    var s := change.0;
    ghost var start := sel.InForce();
    if s < sel.count {
      NextOfIsNext(start, s, sel.count);
      NextSeqIsZero(NextOf(start, s, sel.count), start, s, sel.count);
    }
    ghost var none := sel.NoneValid();
    out := sel.SetBoot(s, change.1);
    if out == Ok {
      sel.SelectedSlot();
      if !none {
        ghost var v: u32 :| IsFound(v, start, s, sel.count)
          && (NextOf(start, s, sel.count) < TWO_32 ==> v == NextOf(start, s, sel.count))
          && sel.InForce() == if v == TWO_32 - 1 then start else v;
        FoundIsUnique(v, Found(start, s, sel.count), start, s, sel.count);
      }
    }
  }

  function Max1(n: nat): nat {
    if n == 0 then 1 else n
  }

  /** A whole life of the selector, with any changes, however many of them are refused or cut short:
      the number in force is the result of the complete ones, and decides what boots.  While the
      numbers stay below 2^32, the last complete change decides. */
  method Run(sel: BootSelector, changes: seq<(nat, Power)>)
    requires sel.Valid() && SearchesEnd(changes, sel.count, NumberOf(sel))
    requires forall c :: c in changes ==> c.0 < 16 && (c.1.CutInWrite? ==> !SelectValid(c.1.left, sel.crc32))
    modifies sel.otadata
    ensures NumberOf(sel) == NumberAfter(changes, sel.count, old(NumberOf(sel)))
    ensures sel.Selected() == match NumberOf(sel)
                              case None => Default
                              case Some(n) => if sel.count == 0 then Default else Slot((n - 1) % TWO_32 % sel.count)
    ensures old(sel.InForce()) + (|changes| + 1) * 16 < TWO_32 ==>
              Choice(sel.Selected(), ZeroInForce(sel)) ==
              LastChosen(changes, sel.count, old(Choice(sel.Selected(), ZeroInForce(sel))))
  {
    hide BootOf, SelectValid, SelectInvalid, Active, ActiveSeq, NextOf, IsNextSeq, IsFound, SearchEnds,
      NumberAfterOne, ChosenBy;
    ghost var before, choice := NumberOf(sel), Choice(sel.Selected(), ZeroInForce(sel));
    ghost var small := sel.InForce() + (|changes| + 1) * 16 < TWO_32;
    for i := 0 to |changes|
      invariant NumberOf(sel) == NumberAfter(changes[..i], sel.count, before)
      invariant small ==> sel.InForce() <= old(sel.InForce()) + 16 * i
      invariant small ==> Choice(sel.Selected(), ZeroInForce(sel)) == LastChosen(changes[..i], sel.count, choice)
    {
      assert changes[i] in changes;
      assert changes[..i + 1][..i] == changes[..i];
      NextOfIsNext(sel.InForce(), changes[i].0, Max1(sel.count));
      var out := ApplyChange(sel, changes[i]);
    }
    assert changes[..|changes|] == changes;
    sel.SelectedByNumber();
  }
}
