/** The EEPROM kept in a flash sector: a write-back cache over a log of numbered copies
    (eeprom_flash.c). Programming flash can only clear bits, so it is a bitwise AND. */
module EepromFlash {
  const EEPROM_SIZE := 256
  const GEN_OFFSET := 256
  const SLOT_SIZE := 257
  const BLANK: bv8 := 0xFF

  type Image = s: seq<bv8> | |s| == EEPROM_SIZE witness Erased(EEPROM_SIZE)

  function Erased(n: nat): (f: seq<bv8>)
    ensures |f| == n && forall i :: 0 <= i < n ==> f[i] == BLANK
  {
    seq(n, i requires 0 <= i < n => BLANK)
  }

  function Slots(f: seq<bv8>): nat { |f| / SLOT_SIZE }

  function Gen(f: seq<bv8>, k: nat): bv8
    requires k < Slots(f)
  {
    f[k * SLOT_SIZE + GEN_OFFSET]
  }

  function SlotImage(f: seq<bv8>, k: nat): Image
    requires k < Slots(f)
  {
    f[k * SLOT_SIZE..k * SLOT_SIZE + EEPROM_SIZE]
  }

  /** The leftmost of the slots with the lowest generation byte; slot 0 on a blank sector. */
  ghost predicate IsCurrent(f: seq<bv8>, s: nat) {
    && s < Slots(f)
    && (forall k: nat :: k < Slots(f) ==> Gen(f, s) <= Gen(f, k))
    && (forall k: nat :: k < s ==> Gen(f, s) < Gen(f, k))
  }

  lemma CurrentUnique(f: seq<bv8>, s: nat, t: nat)
    requires IsCurrent(f, s) && IsCurrent(f, t)
    ensures s == t
  {
    hide Gen;
    assert Gen(f, s) == Gen(f, t);
  }

  function CurrentAmong(f: seq<bv8>, m: nat): (s: nat)
    requires 1 <= m <= Slots(f)
    ensures s < m
    ensures forall k: nat :: k < m ==> Gen(f, s) <= Gen(f, k)
    ensures forall k: nat :: k < s ==> Gen(f, s) < Gen(f, k)
  {
    if m == 1 then 0
    else
      var s := CurrentAmong(f, m - 1);
      if Gen(f, m - 1) < Gen(f, s) then m - 1 else s
  }

  function CurrentSlot(f: seq<bv8>): (s: nat)
    requires Slots(f) >= 1
    ensures IsCurrent(f, s)
  {
    CurrentAmong(f, Slots(f))
  }

  /** What initialisation loads into the cache. */
  function Loads(f: seq<bv8>): Image
    requires Slots(f) >= 1
  {
    SlotImage(f, CurrentSlot(f))
  }

  function And(a: bv8, b: bv8): bv8 { a & b }

  function Masked(a: seq<bv8>, b: seq<bv8>): (r: seq<bv8>)
    requires |a| == |b|
    ensures |r| == |a| && forall i :: 0 <= i < |r| ==> r[i] == And(a[i], b[i])
  {
    seq(|a|, i requires 0 <= i < |a| => And(a[i], b[i]))
  }

  function Program(f: seq<bv8>, at: nat, data: seq<bv8>): (r: seq<bv8>)
    requires at + |data| <= |f|
    ensures |r| == |f|
    ensures forall i :: 0 <= i < |f| ==> r[i] == if at <= i < at + |data| then And(f[i], data[i - at]) else f[i]
  {
    seq(|f|, i requires 0 <= i < |f| => if at <= i < at + |data| then And(f[i], data[i - at]) else f[i])
  }

  function NextSlot(f: seq<bv8>): (k: nat)
    requires Slots(f) >= 1
    ensures k < Slots(f)
    ensures k == CurrentSlot(f) <==> Slots(f) == 1
  {
    var s := CurrentSlot(f);
    if s + 1 == Slots(f) then 0 else s + 1
  }

  /** 8-bit arithmetic: the generation after 0 is 0xFF, which marks an unused slot. */
  function NextGen(g: bv8): bv8 { if g == BLANK then 0xFE else g - 1 }

  /** The sector that programming starts from, and what is programmed into the next slot. */
  function SyncBase(f: seq<bv8>): (b: seq<bv8>)
    requires Slots(f) >= 1
    ensures |b| == |f|
  {
    if Slots(f) == 1 then Erased(|f|) else f
  }

  function SyncData(f: seq<bv8>, cache: Image): (d: seq<bv8>)
    requires Slots(f) >= 1
    ensures |d| == SLOT_SIZE
  {
    cache + [NextGen(Gen(SyncBase(f), CurrentSlot(f)))]
  }

  function SyncFlash(f: seq<bv8>, cache: Image): (r: seq<bv8>)
    requires Slots(f) >= 1
    ensures |r| == |f|
  {
    Program(SyncBase(f), NextSlot(f) * SLOT_SIZE, SyncData(f, cache))
  }

  // ---- one sync -----------------------------------------------------------------------------

  /** Slots other than k keep their cells, slot k is masked. */
  lemma ProgramSlot(f: seq<bv8>, k: nat, data: seq<bv8>, j: nat)
    requires k < Slots(f) && j < Slots(f) && |data| == SLOT_SIZE
    ensures var r := Program(f, k * SLOT_SIZE, data);
            Gen(r, j) == (if j == k then And(Gen(f, k), data[GEN_OFFSET]) else Gen(f, j)) &&
            SlotImage(r, j) == if j == k then Masked(SlotImage(f, k), data[..EEPROM_SIZE]) else SlotImage(f, j)
  {}

  lemma MaskedGen(t: bv8, g: bv8)
    requires g != 0
    ensures And(t, NextGen(g)) < g
  {}

  lemma SyncSlot(f: seq<bv8>, cache: Image, k: nat)
    requires Slots(f) >= 2 && k < Slots(f)
    ensures var r, next := SyncFlash(f, cache), NextSlot(f);
            Gen(r, k) == (if k == next then And(Gen(f, k), NextGen(Gen(f, CurrentSlot(f)))) else Gen(f, k)) &&
            SlotImage(r, k) == if k == next then Masked(SlotImage(f, next), cache) else SlotImage(f, k)
  {
    hide CurrentSlot, NextSlot, NextGen, And;
  }

  /** Lowering one generation byte below the lowest makes its slot the current one. */
  lemma LoweredIsCurrent(f: seq<bv8>, r: seq<bv8>, s: nat)
    requires 1 <= Slots(f) == Slots(r) && s < Slots(f) && Gen(r, s) < Gen(f, CurrentSlot(f))
    requires forall k: nat :: k < Slots(f) && k != s ==> Gen(r, k) == Gen(f, k)
    ensures CurrentSlot(r) == s
  {}

  lemma SameGensCurrent(f: seq<bv8>, r: seq<bv8>)
    requires 1 <= Slots(f) == Slots(r) && forall k: nat :: k < Slots(f) ==> Gen(r, k) == Gen(f, k)
    ensures CurrentSlot(r) == CurrentSlot(f)
  {
    hide Gen, CurrentSlot;
    CurrentUnique(r, CurrentSlot(f), CurrentSlot(r));
  }

  /** What a sync leaves for the next initialisation, on any sector contents. */
  lemma SyncLoads(f: seq<bv8>, cache: Image)
    requires Slots(f) >= 2
    ensures var r := SyncFlash(f, cache);
            if Gen(f, CurrentSlot(f)) == 0
            then CurrentSlot(r) == CurrentSlot(f) && Loads(r) == Loads(f)
            else CurrentSlot(r) == NextSlot(f) && Loads(r) == Masked(SlotImage(f, NextSlot(f)), cache)
  {
    hide Gen, SlotImage, Masked, NextGen, SyncFlash, CurrentSlot;
    var cur, next := CurrentSlot(f), NextSlot(f);
    var r := SyncFlash(f, cache);
    forall k: nat | k < Slots(f)
      ensures Gen(r, k) == (if k == next then And(Gen(f, k), NextGen(Gen(f, cur))) else Gen(f, k))
    {
      SyncSlot(f, cache, k);
    }
    SyncSlot(f, cache, next);
    SyncSlot(f, cache, cur);
    if Gen(f, cur) == 0 {
      KeepsGen(Gen(f, next), Gen(f, cur));
      SameGensCurrent(f, r);
    } else {
      MaskedGen(Gen(f, next), Gen(f, cur));
      LoweredIsCurrent(f, r, next);
    }
  }

  lemma KeepsGen(t: bv8, g: bv8)
    requires g == 0
    ensures And(t, NextGen(g)) == t
  {}

  ghost predicate Faithful(f: seq<bv8>)
    requires Slots(f) >= 1
  {
    forall cache: Image :: Loads(SyncFlash(f, cache)) == cache
  }

  /** A sync saves every cache content exactly when there is but one slot, or the generation
      count has not run out and the image of the next slot is blank. */
  lemma FaithfulIff(f: seq<bv8>)
    requires Slots(f) >= 1
    ensures Faithful(f) <==>
            Slots(f) == 1 || (Gen(f, CurrentSlot(f)) != 0 && SlotImage(f, NextSlot(f)) == Erased(EEPROM_SIZE))
  {
    hide Gen, SlotImage, Masked, Program, SyncFlash, CurrentSlot, NextSlot;
    if Slots(f) == 1 {
      forall cache: Image ensures Loads(SyncFlash(f, cache)) == cache { OnlySlot(f, cache); }
    } else {
      var next := SlotImage(f, NextSlot(f));
      forall cache: Image
        ensures Loads(SyncFlash(f, cache)) == if Gen(f, CurrentSlot(f)) == 0 then Loads(f) else Masked(next, cache)
      {
        SyncLoads(f, cache);
      }
      var ones: Image, zeros: Image := Erased(EEPROM_SIZE), seq(EEPROM_SIZE, i => 0);
      assert ones[0] != zeros[0];
      MaskBlank(next);
      if Faithful(f) {
        assert Loads(SyncFlash(f, ones)) == ones && Loads(SyncFlash(f, zeros)) == zeros;
      }
      if Gen(f, CurrentSlot(f)) != 0 && next == ones {
        forall cache: Image ensures Loads(SyncFlash(f, cache)) == cache { BlankMask(cache); }
      }
    }
  }

  lemma MaskBlank(a: Image)
    ensures Masked(a, Erased(EEPROM_SIZE)) == a
  {}

  lemma BlankMask(a: Image)
    ensures Masked(Erased(EEPROM_SIZE), a) == a
  {}

  lemma OnlySlot(f: seq<bv8>, cache: Image)
    requires Slots(f) == 1
    ensures Loads(SyncFlash(f, cache)) == cache
  {}

  // ---- the log since the sector was erased ------------------------------------------------------

  /** The generation byte of the k-th sync. */
  function GenAfter(k: nat): bv8 {
    if k == 0 then BLANK else GenAfter(k - 1) - 1
  }

  lemma GenBelow(x: bv8)
    requires x != 0
    ensures (x - 1) as int == x as int - 1
  {}

  lemma {:induction false} GenValue(k: nat)
    requires k <= 255
    ensures GenAfter(k) as int == 255 - k
  {
    if k > 0 {
      GenValue(k - 1);
      GenBelow(GenAfter(k - 1));
    }
  }

  lemma GenFalls(j: nat, k: nat)
    requires j < k <= 255
    ensures GenAfter(k) < GenAfter(j)
  {
    GenValue(j);
    GenValue(k);
  }

  /** Which sync since the erase fills slot k of n: the first one takes slot 1. */
  function SyncOf(k: nat, n: nat): nat { if k == 0 then n else k }

  ghost predicate SlotHolds(f: seq<bv8>, images: seq<Image>, k: nat)
    requires k < Slots(f)
  {
    var m := SyncOf(k, Slots(f));
    if 1 <= m <= |images| then Gen(f, k) == GenAfter(m) && SlotImage(f, k) == images[m - 1]
    else Gen(f, k) == BLANK && SlotImage(f, k) == Erased(EEPROM_SIZE)
  }

  /** The sector holds the given images, synced in this order since it was erased. */
  ghost predicate Holds(f: seq<bv8>, images: seq<Image>) {
    && 2 <= Slots(f) <= 255 && |images| <= Slots(f)
    && forall k: nat :: k < Slots(f) ==> SlotHolds(f, images, k)
  }

  function Latest(images: seq<Image>): Image {
    if images == [] then Erased(EEPROM_SIZE) else images[|images| - 1]
  }

  lemma ErasedHolds(n: nat)
    requires 2 <= n / SLOT_SIZE <= 255
    ensures Holds(Erased(n), [])
  {}

  function LatestSlot(images: seq<Image>, n: nat): nat {
    if |images| == n then 0 else |images|
  }

  /** The scan finds the image synced last. */
  lemma {:induction false} HoldsLatest(f: seq<bv8>, images: seq<Image>)
    requires Holds(f, images)
    ensures CurrentSlot(f) == LatestSlot(images, Slots(f)) && Loads(f) == Latest(images)
    ensures Gen(f, CurrentSlot(f)) == GenAfter(|images|)
  {
    hide Gen, SlotImage, GenAfter, CurrentSlot;
    var n, s := Slots(f), LatestSlot(images, Slots(f));
    assert SlotHolds(f, images, s);
    StartGen();
    forall k: nat | k < n ensures Gen(f, s) <= Gen(f, k) && (k < s ==> Gen(f, s) < Gen(f, k)) {
      assert SlotHolds(f, images, k);
      var m := SyncOf(k, n);
      if 1 <= m <= |images| {
        if m < |images| { GenFalls(m, |images|); }
      } else if |images| > 0 {
        GenFalls(0, |images|);
      }
    }
    CurrentUnique(f, s, CurrentSlot(f));
  }

  lemma StartGen()
    ensures GenAfter(0) == BLANK
  {}

  /** One more sync is one more image. */
  lemma SyncHolds(f: seq<bv8>, images: seq<Image>, cache: Image)
    requires Holds(f, images) && |images| < Slots(f)
    ensures Holds(SyncFlash(f, cache), images + [cache])
  {
    hide Gen, SlotImage, GenAfter, CurrentSlot, Program, Masked;
    var n, next, data := Slots(f), NextSlot(f), SyncData(f, cache);
    var r, more := SyncFlash(f, cache), images + [cache];
    HoldsLatest(f, images);
    StartGen();
    assert data[..EEPROM_SIZE] == cache;
    assert SyncOf(next, n) == |images| + 1;
    forall k: nat | k < n ensures SlotHolds(r, more, k) {
      ProgramSlot(f, next, data, k);
      assert SlotHolds(f, images, k);
      if k == next {
        BlankMask(cache);
        NextGenAfter(|images|);
      }
    }
  }

  lemma NextGenAfter(k: nat)
    requires k < 255
    ensures And(BLANK, NextGen(GenAfter(k))) == GenAfter(k + 1)
  {}

  /** The next sync is faithful exactly as long as there is an unused slot, with two
      exceptions in favour of an oldest image that is blank. */
  lemma LimitIff(f: seq<bv8>, images: seq<Image>)
    requires Holds(f, images)
    ensures Faithful(f) <==> |images| < Slots(f) || (Slots(f) < 255 && images[0] == Erased(EEPROM_SIZE))
  {
    hide Gen, SlotImage, GenAfter, CurrentSlot, Faithful;
    FaithfulIff(f);
    HoldsLatest(f, images);
    assert SlotHolds(f, images, NextSlot(f));
    LastGen(|images|);
  }

  lemma LastGen(k: nat)
    requires k <= 255
    ensures GenAfter(k) == 0 <==> k == 255
  {
    GenValue(k);
  }

  // ---- power loss ------------------------------------------------------------------------------------

  /** x is reached on the way from a to b by clearing bits. */
  predicate Between(x: bv8, a: bv8, b: bv8) { x & b == b && x | a == a }

  ghost predicate TornCell(f: seq<bv8>, at: nat, data: seq<bv8>, i: nat, e: seq<bv8>, k: nat)
    requires at + |data| <= |f| == |e| && k < |f|
  {
    if at <= k < at + i && i <= |data| then e[k] == And(f[k], data[k - at])
    else if k == at + i && i < |data| then Between(e[k], f[k], And(f[k], data[i]))
    else e[k] == f[k]
  }

  /** e is what programming leaves when the power fails in byte i of the data: the bytes
      before it are programmed, some bits of it may be, and those after it are not. */
  ghost predicate Torn(f: seq<bv8>, at: nat, data: seq<bv8>, i: nat, e: seq<bv8>) {
    && at + |data| <= |f| == |e| && i <= |data|
    && forall k: nat :: k < |f| ==> TornCell(f, at, data, i, e, k)
  }

  ghost predicate PowerLoss(f: seq<bv8>, cache: Image, i: nat, e: seq<bv8>)
    requires Slots(f) >= 1
  {
    Torn(SyncBase(f), NextSlot(f) * SLOT_SIZE, SyncData(f, cache), i, e)
  }

  lemma TornOther(f: seq<bv8>, s: nat, data: seq<bv8>, i: nat, e: seq<bv8>, j: nat)
    requires s < Slots(f) && j < Slots(f) && j != s && |data| == SLOT_SIZE && Torn(f, s * SLOT_SIZE, data, i, e)
    ensures Gen(e, j) == Gen(f, j) && SlotImage(e, j) == SlotImage(f, j)
  {
    hide TornCell;
    var at := j * SLOT_SIZE;
    forall k: nat | at <= k < at + SLOT_SIZE ensures e[k] == f[k] {
      TornMeaning(f, s * SLOT_SIZE, data, i, e, k);
    }
    assert SlotImage(e, j) == SlotImage(f, j);
  }

  /** The generation byte changes only once the image is complete. */
  lemma TornGen(f: seq<bv8>, s: nat, data: seq<bv8>, i: nat, e: seq<bv8>)
    requires s < Slots(f) && |data| == SLOT_SIZE && Torn(f, s * SLOT_SIZE, data, i, e)
    ensures Between(Gen(e, s), Gen(f, s), And(Gen(f, s), data[GEN_OFFSET]))
    ensures i < EEPROM_SIZE ==> Gen(e, s) == Gen(f, s)
  {
    hide Torn, Between;
    var at := s * SLOT_SIZE;
    EndsBetween(f[at + GEN_OFFSET], data[GEN_OFFSET]);
    TornMeaning(f, at, data, i, e, at + GEN_OFFSET);
  }

  lemma TornImage(f: seq<bv8>, s: nat, data: seq<bv8>, i: nat, e: seq<bv8>)
    requires s < Slots(f) && |data| == SLOT_SIZE && Torn(f, s * SLOT_SIZE, data, i, e) && i >= EEPROM_SIZE
    ensures SlotImage(e, s) == Masked(SlotImage(f, s), data[..EEPROM_SIZE])
  {
    hide TornCell;
    var at := s * SLOT_SIZE;
    forall k: nat | k < EEPROM_SIZE ensures SlotImage(e, s)[k] == And(SlotImage(f, s)[k], data[k]) {
      TornMeaning(f, at, data, i, e, at + k);
    }
  }

  lemma TornMeaning(f: seq<bv8>, at: nat, data: seq<bv8>, i: nat, e: seq<bv8>, k: nat)
    requires Torn(f, at, data, i, e) && k < |f|
    ensures k < at || k >= at + |data| ==> e[k] == f[k]
    ensures at <= k < at + |data| ==>
              if k - at < i then e[k] == And(f[k], data[k - at])
              else if k - at == i then Between(e[k], f[k], And(f[k], data[i]))
              else e[k] == f[k]
  {
    hide Between;
    assert TornCell(f, at, data, i, e, k);
  }

  lemma EndsBetween(a: bv8, d: bv8)
    ensures Between(a, a, And(a, d)) && Between(And(a, d), a, And(a, d))
  {}

  lemma BetweenBounds(x: bv8, a: bv8, g: bv8)
    requires Between(x, a, And(a, NextGen(g)))
    ensures x <= a && (g == 0 ==> x == a)
  {}

  /** A generation byte that comes down to the lowest one takes over from a slot further right. */
  lemma TieToLeft(f: seq<bv8>, e: seq<bv8>, s: nat)
    requires 1 <= Slots(f) == Slots(e) && s < CurrentSlot(f) && Gen(e, s) == Gen(f, CurrentSlot(f))
    requires forall k: nat :: k < Slots(f) && k != s ==> Gen(e, k) == Gen(f, k)
    ensures CurrentSlot(e) == s && Gen(e, s) != Gen(f, s)
  {}

  /** One that stays above it, or meets it further right, does not. */
  lemma TieToRight(f: seq<bv8>, e: seq<bv8>, s: nat)
    requires 1 <= Slots(f) == Slots(e) && s < Slots(f) && s != CurrentSlot(f)
    requires Gen(f, CurrentSlot(f)) <= Gen(e, s) && (s < CurrentSlot(f) ==> Gen(f, CurrentSlot(f)) < Gen(e, s))
    requires forall k: nat :: k < Slots(f) && k != s ==> Gen(e, k) == Gen(f, k)
    ensures CurrentSlot(e) == CurrentSlot(f)
  {
    hide Gen, CurrentSlot;
    CurrentUnique(e, CurrentSlot(f), CurrentSlot(e));
  }

  lemma LossGens(f: seq<bv8>, cache: Image, i: nat, e: seq<bv8>)
    requires Slots(f) >= 2 && PowerLoss(f, cache, i, e)
    ensures Slots(e) == Slots(f) && forall k: nat :: k < Slots(f) && k != NextSlot(f) ==> Gen(e, k) == Gen(f, k)
    ensures Gen(e, NextSlot(f)) <= Gen(f, NextSlot(f)) && Gen(f, CurrentSlot(f)) <= Gen(f, NextSlot(f))
    ensures Gen(f, CurrentSlot(f)) == 0 || i < EEPROM_SIZE ==> Gen(e, NextSlot(f)) == Gen(f, NextSlot(f))
  {
    hide Gen, TornCell, Between, NextGen, CurrentSlot;
    var next, data := NextSlot(f), SyncData(f, cache);
    assert data[GEN_OFFSET] == NextGen(Gen(f, CurrentSlot(f)));
    forall j: nat | j < Slots(f) && j != next ensures Gen(e, j) == Gen(f, j) {
      TornOther(f, next, data, i, e, j);
    }
    TornGen(f, next, data, i, e);
    BetweenBounds(Gen(e, next), Gen(f, next), Gen(f, CurrentSlot(f)));
  }

  lemma LossImages(f: seq<bv8>, cache: Image, i: nat, e: seq<bv8>)
    requires Slots(f) >= 2 && PowerLoss(f, cache, i, e)
    ensures Slots(e) == Slots(f) && SlotImage(e, CurrentSlot(f)) == SlotImage(f, CurrentSlot(f))
    ensures i >= EEPROM_SIZE ==> SlotImage(e, NextSlot(f)) == Masked(SlotImage(f, NextSlot(f)), cache)
  {
    hide SlotImage, TornCell, Masked, CurrentSlot;
    var data := SyncData(f, cache);
    assert data[..EEPROM_SIZE] == cache;
    TornOther(f, NextSlot(f), data, i, e, CurrentSlot(f));
    if i >= EEPROM_SIZE {
      TornImage(f, NextSlot(f), data, i, e);
    }
  }

  /** Wherever the power fails during a sync, even within a byte, initialisation loads the
      image it would have loaded before the sync or the one it loads after it. */
  lemma CrashAtomic(f: seq<bv8>, cache: Image, i: nat, e: seq<bv8>)
    requires Slots(f) >= 2 && PowerLoss(f, cache, i, e)
    ensures Loads(e) == Loads(f) || Loads(e) == Loads(SyncFlash(f, cache))
  {
    hide Gen, SlotImage, PowerLoss, Masked, SyncFlash, CurrentSlot, IsCurrent;
    var cur, next := CurrentSlot(f), NextSlot(f);
    SyncLoads(f, cache);
    LossGens(f, cache, i, e);
    LossImages(f, cache, i, e);
    if Gen(f, cur) == 0 {
      SameGensCurrent(f, e);
    } else if Gen(e, next) < Gen(f, cur) {
      LoweredIsCurrent(f, e, next);
    } else if Gen(e, next) == Gen(f, cur) && next < cur {
      TieToLeft(f, e, next);
    } else {
      TieToRight(f, e, next);
    }
  }

  ghost predicate Atomic(f: seq<bv8>)
    requires Slots(f) >= 1
  {
    forall cache: Image, i: nat, e: seq<bv8> :: PowerLoss(f, cache, i, e) ==>
      Loads(e) == Loads(f) || Loads(e) == Loads(SyncFlash(f, cache))
  }

  /** With a single slot the sector has to be erased first, and a power loss leaves a part
      of the new image. */
  lemma AtomicIff(f: seq<bv8>)
    requires Slots(f) >= 1
    ensures Atomic(f) <==> Slots(f) >= 2
  {
    hide TornCell, SyncFlash, Loads;
    if Slots(f) >= 2 {
      forall cache: Image, i: nat, e: seq<bv8> | PowerLoss(f, cache, i, e)
        ensures Loads(e) == Loads(f) || Loads(e) == Loads(SyncFlash(f, cache))
      {
        CrashAtomic(f, cache, i, e);
      }
    } else {
      var cache: Image := seq(EEPROM_SIZE, i => 0);
      OnlySlot(f, cache);
      var a := PartOfImage(f, cache, 1);
      var b := PartOfImage(f, cache, 2);
      assert Loads(a)[1] != Loads(b)[1] && Loads(a)[2] != cache[2] && Loads(b)[2] != cache[2];
    }
  }

  lemma PartOfImage(f: seq<bv8>, cache: Image, i: nat) returns (e: seq<bv8>)
    requires Slots(f) == 1 && 1 <= i < EEPROM_SIZE && forall k :: 0 <= k < EEPROM_SIZE ==> cache[k] == 0
    ensures PowerLoss(f, cache, i, e) && Slots(e) == 1
    ensures forall k :: 0 <= k < EEPROM_SIZE ==> Loads(e)[k] == if k < i then 0 else BLANK
  {
    hide Between;
    var data := SyncData(f, cache);
    e := Program(Erased(|f|), 0, data[..i]);
    EndsBetween(BLANK, data[i]);
    forall k: nat | k < |f| ensures TornCell(Erased(|f|), 0, data, i, e, k) {}
  }

  /** On a log with an unused slot: the image before the sync, or the one being synced. */
  lemma CrashOnLog(f: seq<bv8>, images: seq<Image>, cache: Image, i: nat, e: seq<bv8>)
    requires Holds(f, images) && |images| < Slots(f) && PowerLoss(f, cache, i, e)
    ensures Loads(e) == Latest(images) || Loads(e) == cache
  {
    hide PowerLoss, SyncFlash, Loads, SlotHolds;
    CrashAtomic(f, cache, i, e);
    HoldsLatest(f, images);
    SyncHolds(f, images, cache);
    HoldsLatest(SyncFlash(f, cache), images + [cache]);
  }

  lemma LossCell(f: seq<bv8>, cache: Image, i: nat, e: seq<bv8>, k: nat)
    requires Slots(f) >= 2 && PowerLoss(f, cache, i, e) && k < EEPROM_SIZE
    ensures Slots(e) == Slots(f)
    ensures And(SlotImage(e, NextSlot(f))[k], cache[k]) == And(SlotImage(f, NextSlot(f))[k], cache[k])
  {
    hide TornCell, Between, CurrentSlot;
    var at := NextSlot(f) * SLOT_SIZE;
    TornMeaning(f, at, SyncData(f, cache), i, e, at + k);
    CellMasked(e[at + k], f[at + k], cache[k]);
  }

  lemma CellMasked(x: bv8, a: bv8, c: bv8)
    requires x == And(a, c) || x == a || Between(x, a, And(a, c))
    ensures And(x, c) == And(a, c)
  {}

  lemma LossMasked(f: seq<bv8>, cache: Image, i: nat, e: seq<bv8>)
    requires Slots(f) >= 2 && PowerLoss(f, cache, i, e)
    ensures Slots(e) == Slots(f)
    ensures Masked(SlotImage(e, NextSlot(f)), cache) == Masked(SlotImage(f, NextSlot(f)), cache)
  {
    hide TornCell, SlotImage, CurrentSlot;
    forall k: nat | k < EEPROM_SIZE
      ensures And(SlotImage(e, NextSlot(f))[k], cache[k]) == And(SlotImage(f, NextSlot(f))[k], cache[k])
    {
      LossCell(f, cache, i, e, k);
    }
  }

  /** A sync cut short before its generation byte: doing the same sync again completes it, but
      other contents are saved faithfully only if no data bit had been cleared. */
  lemma AfterPowerLoss(f: seq<bv8>, cache: Image, i: nat, e: seq<bv8>)
    requires Slots(f) >= 2 && PowerLoss(f, cache, i, e) && i < EEPROM_SIZE && Gen(f, CurrentSlot(f)) != 0
    ensures Loads(SyncFlash(e, cache)) == Loads(SyncFlash(f, cache))
    ensures NextSlot(e) == NextSlot(f)
    ensures Faithful(e) <==> SlotImage(e, NextSlot(f)) == Erased(EEPROM_SIZE)
  {
    hide Gen, SlotImage, PowerLoss, Masked, SyncFlash, CurrentSlot, Faithful;
    LossGens(f, cache, i, e);
    LossMasked(f, cache, i, e);
    SameGensCurrent(f, e);
    SyncLoads(f, cache);
    SyncLoads(e, cache);
    FaithfulIff(e);
  }

  // ---- the cache ---------------------------------------------------------------------------------------

  datatype Op = Write(addr: nat, val: bv8) | Update(addr: nat, val: bv8) | Sync | Init

  datatype Eeprom = Eeprom(flash: seq<bv8>, cache: Image, dirty: bool)

  function Apply(s: Eeprom, op: Op): (t: Eeprom)
    requires Slots(s.flash) >= 1
    ensures |t.flash| == |s.flash|
  {
    match op
    case Write(addr, val) =>
      if addr < EEPROM_SIZE then s.(cache := s.cache[addr := val], dirty := true) else s
    case Update(addr, val) =>
      if addr < EEPROM_SIZE && s.cache[addr] != val then s.(cache := s.cache[addr := val], dirty := true) else s
    case Sync =>
      if s.dirty then Eeprom(SyncFlash(s.flash, s.cache), s.cache, false) else s
    case Init =>
      s.(cache := Loads(s.flash), dirty := false)
  }

  function Run(s: Eeprom, ops: seq<Op>): (t: Eeprom)
    requires Slots(s.flash) >= 1
    ensures |t.flash| == |s.flash|
    decreases ops
  {
    if ops == [] then s else Run(Apply(s, ops[0]), ops[1..])
  }

  /** What the interface promises: an array of bytes, and the copy of it that a restart
      brings back. */
  datatype Ideal = Ideal(bytes: Image, saved: Image)

  function Promise(i: Ideal, op: Op): Ideal {
    match op
    case Write(addr, val) => if addr < EEPROM_SIZE then i.(bytes := i.bytes[addr := val]) else i
    case Update(addr, val) => if addr < EEPROM_SIZE then i.(bytes := i.bytes[addr := val]) else i
    case Sync => i.(saved := i.bytes)
    case Init => i.(bytes := i.saved)
  }

  function PromiseAll(i: Ideal, ops: seq<Op>): Ideal
    decreases ops
  {
    if ops == [] then i else PromiseAll(Promise(i, ops[0]), ops[1..])
  }

  /** The operation changes a promised byte, or is a write, which does not look. */
  predicate Touches(i: Ideal, op: Op) {
    match op
    case Write(addr, _) => addr < EEPROM_SIZE
    case Update(addr, val) => addr < EEPROM_SIZE && i.bytes[addr] != val
    case _ => false
  }

  /** There is something to save after the operation, if there was before when `touched`. */
  predicate Unsaved(i: Ideal, touched: bool, op: Op) {
    !op.Sync? && !op.Init? && (touched || Touches(i, op))
  }

  /** How many of the syncs have something to save: since the sync or restart before them, a
      byte was written, or updated to another value. */
  function NeededSyncs(i: Ideal, touched: bool, ops: seq<Op>): nat
    decreases ops
  {
    if ops == [] then 0
    else (if ops[0].Sync? && touched then 1 else 0) +
         NeededSyncs(Promise(i, ops[0]), Unsaved(i, touched, ops[0]), ops[1..])
  }

  ghost predicate Tracks(s: Eeprom, i: Ideal, images: seq<Image>) {
    && Holds(s.flash, images)
    && s.cache == i.bytes && Latest(images) == i.saved
    && (!s.dirty ==> i.bytes == i.saved)
  }

  lemma StepTracks(s: Eeprom, i: Ideal, images: seq<Image>, op: Op)
    requires Tracks(s, i, images) && (op.Sync? && s.dirty ==> |images| < Slots(s.flash))
    ensures Tracks(Apply(s, op), Promise(i, op), if op.Sync? && s.dirty then images + [s.cache] else images)
  {
    hide SyncFlash, Loads, SlotHolds, CurrentSlot;
    match op {
      case Sync => if s.dirty { SyncHolds(s.flash, images, s.cache); }
      case Init => HoldsLatest(s.flash, images);
      case Write(addr, val) =>
      case Update(addr, val) =>
        if addr < EEPROM_SIZE && s.cache[addr] == val { assert s.cache[addr := val] == s.cache; }
    }
  }

  /** While no more syncs program the flash than there are slots left, every run of the
      interface does what it promises: the cache holds the promised bytes, and a restart
      brings back the bytes of the last sync. */
  lemma DirtyAfter(s: Eeprom, i: Ideal, op: Op)
    requires Slots(s.flash) >= 1 && s.cache == i.bytes
    ensures Apply(s, op).dirty == Unsaved(i, s.dirty, op)
  {
    hide SyncFlash, Loads;
  }

  /** While no more syncs have something to save than there are slots left, every run of the
      interface does what it promises: the cache holds the promised bytes, a restart brings
      back the bytes of the last sync, and each of those syncs, but no other, has added an
      image to the flash. */
  lemma {:induction false} RunTracks(s: Eeprom, i: Ideal, images: seq<Image>, ops: seq<Op>) returns (all: seq<Image>)
    requires Tracks(s, i, images) && |images| + NeededSyncs(i, s.dirty, ops) <= Slots(s.flash)
    ensures |all| == |images| + NeededSyncs(i, s.dirty, ops)
    ensures Tracks(Run(s, ops), PromiseAll(i, ops), all)
    ensures Loads(Run(s, ops).flash) == PromiseAll(i, ops).saved
    decreases ops
  {
    hide SlotHolds, Apply, Promise, Loads, Unsaved;
    if ops == [] {
      all := images;
      TracksLoads(s, i, images);
    } else {
      StepTracks(s, i, images, ops[0]);
      DirtyAfter(s, i, ops[0]);
      all := RunTracks(Apply(s, ops[0]), Promise(i, ops[0]),
                       if ops[0].Sync? && s.dirty then images + [s.cache] else images, ops[1..]);
    }
  }

  /** The operation writes nothing, and updates no byte to another value than the image has. */
  predicate Quiet(image: Image, op: Op) {
    match op
    case Write(addr, _) => addr >= EEPROM_SIZE
    case Update(addr, val) => addr >= EEPROM_SIZE || image[addr] == val
    case Sync => true
    case Init => false
  }

  /** After a sync or a restart, on any sector contents, nothing changes until a byte is
      written or updated to another value; above all, further syncs program nothing. */
  lemma QuietAfterSync(s: Eeprom, op: Op, ops: seq<Op>)
    requires Slots(s.flash) >= 1 && (op.Sync? || op.Init?)
    requires forall k :: 0 <= k < |ops| ==> Quiet(Apply(s, op).cache, ops[k])
    ensures Run(Apply(s, op), ops) == Apply(s, op)
  {
    hide SyncFlash, Loads;
    QuietRun(Apply(s, op), ops);
  }

  lemma {:induction false} QuietRun(s: Eeprom, ops: seq<Op>)
    requires Slots(s.flash) >= 1 && !s.dirty
    requires forall k :: 0 <= k < |ops| ==> Quiet(s.cache, ops[k])
    ensures Run(s, ops) == s
    decreases ops
  {
    hide SyncFlash, Loads;
    if ops != [] {
      assert Quiet(s.cache, ops[0]);
      QuietRun(s, ops[1..]);
    }
  }

  lemma TracksLoads(s: Eeprom, i: Ideal, images: seq<Image>)
    requires Tracks(s, i, images)
    ensures Loads(s.flash) == i.saved
  {
    HoldsLatest(s.flash, images);
  }

  lemma FromErased(n: nat, ops: seq<Op>)
    requires 2 <= n / SLOT_SIZE <= 255
    requires NeededSyncs(Ideal(Erased(EEPROM_SIZE), Erased(EEPROM_SIZE)), false, ops) <= n / SLOT_SIZE
    ensures var s := Run(Eeprom(Erased(n), Erased(EEPROM_SIZE), false), ops);
            var i := PromiseAll(Ideal(Erased(EEPROM_SIZE), Erased(EEPROM_SIZE)), ops);
            s.cache == i.bytes && Loads(s.flash) == i.saved && (!s.dirty ==> s.cache == Loads(s.flash))
  {
    hide Run, PromiseAll, NeededSyncs, SlotHolds;
    ErasedHolds(n);
    var all := RunTracks(Eeprom(Erased(n), Erased(EEPROM_SIZE), false),
                         Ideal(Erased(EEPROM_SIZE), Erased(EEPROM_SIZE)), [], ops);
  }

  // ---- the driver ----------------------------------------------------------------------------------------

  /** The sector after 1, 2, .. n bytes of the data. */
  ghost function ProgramTrace(f: seq<bv8>, at: nat, data: seq<bv8>, n: nat): (t: seq<seq<bv8>>)
    requires at + |data| <= |f| && n <= |data|
    ensures |t| == n && forall k :: 0 <= k < n ==> t[k] == Program(f, at, data[..k + 1])
  {
    if n == 0 then [] else ProgramTrace(f, at, data, n - 1) + [Program(f, at, data[..n])]
  }

  lemma ProgramNothing(f: seq<bv8>, at: nat)
    requires at <= |f|
    ensures Program(f, at, []) == f
  {}

  lemma ProgramNext(f: seq<bv8>, at: nat, data: seq<bv8>, i: nat)
    requires at + |data| <= |f| && i < |data|
    ensures Program(f, at, data[..i])[at + i] == f[at + i]
    ensures Program(f, at, data[..i + 1]) == Program(f, at, data[..i])[at + i := And(f[at + i], data[i])]
  {
    hide And;
  }

  /** What programming leaves after n bytes is among what a power loss may leave. */
  lemma TraceIsTorn(f: seq<bv8>, at: nat, data: seq<bv8>, n: nat)
    requires at + |data| <= |f| && n <= |data|
    ensures Torn(f, at, data, n, Program(f, at, data[..n]))
  {}

  class FlashEeprom {
    const flash: array<bv8>
    const cache: array<bv8>
    var dirty: bool
    /** The sector after each byte programmed and each erase. */
    ghost var hist: seq<seq<bv8>>

    ghost predicate Valid()
      reads this
    {
      flash != cache && cache.Length == EEPROM_SIZE && flash.Length >= SLOT_SIZE
    }

    ghost function State(): Eeprom
      reads this, flash, cache
      requires Valid()
    {
      Eeprom(flash[..], cache[..], dirty)
    }

    constructor (sector: array<bv8>)
      requires sector.Length >= SLOT_SIZE
      ensures Valid() && flash == sector && fresh(cache) && !dirty && hist == []
    {
      flash := sector;
      cache := new bv8[EEPROM_SIZE](i => 0);
      dirty, hist := false, [];
    }

    method EraseSector()
      requires Valid()
      modifies this`hist, flash
      ensures flash[..] == Erased(flash.Length) && hist == old(hist) + [flash[..]]
    {
      for i := 0 to flash.Length
        invariant forall k :: 0 <= k < i ==> flash[k] == BLANK
        invariant hist == old(hist)
      {
        flash[i] := BLANK;
      }
      hist := hist + [flash[..]];
    }

    /** Programming clears the bits that are 0 in the data, byte after byte. */
    method WriteBytes(at: nat, data: seq<bv8>)
      requires Valid() && at + |data| <= flash.Length
      modifies this`hist, flash
      ensures flash[..] == Program(old(flash[..]), at, data)
      ensures hist == old(hist) + ProgramTrace(old(flash[..]), at, data, |data|)
    {
      hide And, Program;
      ghost var f := flash[..];
      ProgramNothing(f, at);
      for i := 0 to |data|
        invariant flash[..] == Program(f, at, data[..i])
        invariant hist == old(hist) + ProgramTrace(f, at, data, i)
      {
        ProgramNext(f, at, data, i);
        assert flash[at + i] == flash[..][at + i];
        flash[at + i] := And(flash[at + i], data[i]);
        hist := hist + [flash[..]];
      }
      assert data[..|data|] == data;
    }

    /** Slot of the newest image. */
    method FindCurrentGen() returns (s: nat)
      requires Valid()
      ensures s < Slots(flash[..]) && IsCurrent(flash[..], s)
    {
      hide Gen, LeastSoFar, IsCurrent;
      s := 0;
      var gen: bv8 := BLANK;
      LeastOfNone(flash[..]);
      for k := 0 to flash.Length / SLOT_SIZE
        invariant LeastSoFar(flash[..], k, s, gen)
      {
        var g := flash[k * SLOT_SIZE + GEN_OFFSET];
        GenAt(flash[..], k);
        LeastNext(flash[..], k, s, gen);
        if g != BLANK && g < gen {
          gen, s := g, k;
        }
      }
      LeastOfAll(flash[..], s, gen);
    }

    /** The slot after the current one; erases the sector if there is no other. */
    method FindNextFreeSlot(current: nat) returns (next: nat)
      requires Valid() && current < Slots(flash[..])
      modifies this`hist, flash
      ensures next == (if current + 1 == flash.Length / SLOT_SIZE then 0 else current + 1)
      ensures if flash.Length / SLOT_SIZE == 1
              then flash[..] == Erased(flash.Length) && hist == old(hist) + [flash[..]]
              else flash[..] == old(flash[..]) && hist == old(hist)
    {
      next := (current + 1) % (flash.Length / SLOT_SIZE);
      if next == current {
        EraseSector();
        next := 0;
      }
    }

    method Init()
      requires Valid()
      modifies this`dirty, cache
      ensures State() == Apply(old(State()), Op.Init)
    {
      var s := FindCurrentGen();
      CurrentUnique(flash[..], s, CurrentSlot(flash[..]));
      for i := 0 to EEPROM_SIZE
        invariant flash[..] == old(flash[..])
        invariant forall k :: 0 <= k < i ==> cache[k] == flash[s * SLOT_SIZE + k]
      {
        cache[i] := flash[s * SLOT_SIZE + i];
      }
      dirty := false;
      assert cache[..] == SlotImage(flash[..], s);
    }

    method ReadByte(addr: nat) returns (b: bv8)
      requires Valid()
      ensures b == if addr < EEPROM_SIZE then State().cache[addr] else 0xFF
    {
      if addr >= EEPROM_SIZE {
        return 0xFF;
      }
      return cache[addr];
    }

    method WriteByte(addr: nat, val: bv8)
      requires Valid()
      modifies this`dirty, cache
      ensures State() == Apply(old(State()), Write(addr, val))
    {
      if addr >= EEPROM_SIZE {
        return;
      }
      cache[addr] := val;
      dirty := true;
    }

    method UpdateByte(addr: nat, val: bv8)
      requires Valid()
      modifies this`dirty, cache
      ensures State() == Apply(old(State()), Update(addr, val))
    {
      if addr >= EEPROM_SIZE {
        return;
      }
      if cache[addr] != val {
        cache[addr] := val;
        dirty := true;
      }
    }

    /** The image first, its generation byte last. */
    method FillSlot(current: nat, next: nat)
      requires Valid() && current < Slots(flash[..]) && next < Slots(flash[..])
      modifies this`hist, flash
      ensures var data := cache[..] + [NextGen(Gen(old(flash[..]), current))];
              && flash[..] == Program(old(flash[..]), next * SLOT_SIZE, data)
              && hist == old(hist) + ProgramTrace(old(flash[..]), next * SLOT_SIZE, data, SLOT_SIZE)
    {
      hide Gen, Program, NextGen, ProgramTrace;
      ghost var f := flash[..];
      var at := next * SLOT_SIZE;
      WriteBytes(at, cache[..]);
      var g := flash[current * SLOT_SIZE + GEN_OFFSET];
      GenAt(flash[..], current);
      GenKept(f, next, cache[..], current);
      WriteBytes(at + GEN_OFFSET, [NextGen(g)]);
      JoinPrograms(f, at, cache[..], [NextGen(g)]);
    }

    method Sync()
      requires Valid()
      modifies this, flash
      ensures State() == Apply(old(State()), Op.Sync)
      ensures hist == old(hist) + if old(dirty) then SyncTrace(old(State().flash), cache[..]) else []
    {
      hide Gen, Program, ProgramTrace, IsCurrent, CurrentSlot, Erased, NextGen, SyncFlash, SyncTrace;
      if !dirty {
        return;
      }
      ghost var f, image := flash[..], cache[..];
      var current := FindCurrentGen();
      CurrentUnique(f, current, CurrentSlot(f));
      var next := FindNextFreeSlot(current);
      FilledSlot(f, image, current, next, flash[..]);
      FillSlot(current, next);
      dirty := false;
    }
  }

  /** gen is the lowest generation of the first k slots, s the leftmost slot with it; slot 0
      as long as all of them are blank. */
  ghost predicate LeastSoFar(f: seq<bv8>, k: nat, s: nat, gen: bv8)
    requires k <= Slots(f)
  {
    && s <= k
    && (if gen == BLANK then s == 0 else s < k && gen == Gen(f, s))
    && (forall j: nat :: j < k ==> gen <= Gen(f, j))
    && (forall j: nat :: j < s ==> gen < Gen(f, j))
  }

  lemma LeastOfNone(f: seq<bv8>)
    ensures LeastSoFar(f, 0, 0, BLANK)
  {}

  lemma LeastNext(f: seq<bv8>, k: nat, s: nat, gen: bv8)
    requires k < Slots(f) && LeastSoFar(f, k, s, gen)
    ensures var g := Gen(f, k);
            if g != BLANK && g < gen then LeastSoFar(f, k + 1, k, g) else LeastSoFar(f, k + 1, s, gen)
  {
    hide Gen;
  }

  lemma LeastOfAll(f: seq<bv8>, s: nat, gen: bv8)
    requires Slots(f) >= 1 && LeastSoFar(f, Slots(f), s, gen)
    ensures s < Slots(f) && IsCurrent(f, s)
  {
    hide Gen;
    assert Gen(f, 0) <= BLANK;
  }

  /** A sync is the program of one image into one slot of the base. */
  lemma FilledSlot(f: seq<bv8>, image: Image, current: nat, next: nat, base: seq<bv8>)
    requires Slots(f) >= 1 && current == CurrentSlot(f) && base == SyncBase(f)
    requires next == if current + 1 == Slots(f) then 0 else current + 1
    ensures var data := image + [NextGen(Gen(base, current))];
            && SyncFlash(f, image) == Program(base, next * SLOT_SIZE, data)
            && SyncTrace(f, image) ==
               (if Slots(f) == 1 then [base] else []) + ProgramTrace(base, next * SLOT_SIZE, data, SLOT_SIZE)
  {
    hide Gen, Program, ProgramTrace, CurrentSlot, NextGen, Erased;
  }

  lemma GenAt(f: seq<bv8>, k: nat)
    requires k < Slots(f)
    ensures Gen(f, k) == f[k * SLOT_SIZE + GEN_OFFSET]
  {}

  /** Programming an image changes no generation byte. */
  lemma GenKept(f: seq<bv8>, s: nat, image: Image, k: nat)
    requires s < Slots(f) && k < Slots(f)
    ensures Gen(Program(f, s * SLOT_SIZE, image), k) == Gen(f, k)
  {}

  lemma JoinProgram(f: seq<bv8>, at: nat, a: seq<bv8>, b: seq<bv8>)
    requires at + |a| + |b| <= |f|
    ensures Program(Program(f, at, a), at + |a|, b) == Program(f, at, a + b)
  {}

  /** Two pieces of data programmed one after the other. */
  lemma JoinPrograms(f: seq<bv8>, at: nat, a: seq<bv8>, b: seq<bv8>)
    requires at + |a| + |b| <= |f|
    ensures Program(Program(f, at, a), at + |a|, b) == Program(f, at, a + b)
    ensures ProgramTrace(f, at, a, |a|) + ProgramTrace(Program(f, at, a), at + |a|, b, |b|) ==
            ProgramTrace(f, at, a + b, |a + b|)
  {
    hide Program;
    JoinProgram(f, at, a, b);
    var whole := ProgramTrace(f, at, a + b, |a + b|);
    var first, second := ProgramTrace(f, at, a, |a|), ProgramTrace(Program(f, at, a), at + |a|, b, |b|);
    forall k: nat | k < |a| ensures first[k] == whole[k] {
      assert a[..k + 1] == (a + b)[..k + 1];
    }
    forall k: nat | k < |b| ensures second[k] == whole[|a| + k] {
      JoinProgram(f, at, a, b[..k + 1]);
      assert a + b[..k + 1] == (a + b)[..|a| + k + 1];
    }
  }

  /** The sectors a sync passes through. */
  ghost function SyncTrace(f: seq<bv8>, cache: Image): seq<seq<bv8>>
    requires Slots(f) >= 1
  {
    (if Slots(f) == 1 then [Erased(|f|)] else []) +
    ProgramTrace(SyncBase(f), NextSlot(f) * SLOT_SIZE, SyncData(f, cache), SLOT_SIZE)
  }

  /** Every sector in the history of a sync is one a power loss may leave, so from each of them
      initialisation loads the old image or the new one. */
  lemma SyncTraceAtomic(f: seq<bv8>, cache: Image, k: nat)
    requires Slots(f) >= 2 && k < SLOT_SIZE
    ensures |SyncTrace(f, cache)| == SLOT_SIZE && |SyncTrace(f, cache)[k]| == |f|
    ensures var e := SyncTrace(f, cache)[k];
            && PowerLoss(f, cache, k + 1, e)
            && (Loads(e) == Loads(f) || Loads(e) == Loads(SyncFlash(f, cache)))
  {
    hide Torn, Loads, SyncFlash, Program, CurrentSlot;
    var at, data := NextSlot(f) * SLOT_SIZE, SyncData(f, cache);
    TraceIsTorn(f, at, data, k + 1);
    assert SyncTrace(f, cache) == ProgramTrace(f, at, data, SLOT_SIZE);
    assert SyncTrace(f, cache)[k] == Program(f, at, data[..k + 1]);
    CrashAtomic(f, cache, k + 1, SyncTrace(f, cache)[k]);
  }
}
