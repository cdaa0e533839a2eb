/** The configuration: the pre-allocation sizes, the layout of the EEPROM, saving and loading
    (config.c, config.h). */
module Configs {
  import opened Bytes
  import opened Volumes
  import opened LogSpec

  function PreallocBytes(code: nat): nat {
    match code
    case 0 => 0x10_0000
    case 1 => 0x40_0000
    case 2 => 0x80_0000
    case 3 => 0x100_0000
    case 4 => 0x200_0000
    case _ => 0x80_0000
  }

  /** A megabyte, four, and from there on the double each time; a code without a size of its
      own stands for the default. */
  lemma SizeTable(code: nat)
    ensures PreallocBytes(0) == 1024 * 1024 && PreallocBytes(1) == 4 * PreallocBytes(0)
    ensures 1 <= code < 4 ==> PreallocBytes(code + 1) == 2 * PreallocBytes(code)
    ensures code > 4 ==> PreallocBytes(code) == PreallocBytes(DEFAULTS.preallocCode) == 8 * 1024 * 1024
  {}

  lemma RoundUp(n: nat, w: nat, q: nat)
    requires w >= 1 && n == q * w
    ensures (n + w - 1) / w == q
  {
    DivBounds(n + w - 1, w);
    var x := (n + w - 1) / w;
    TimesIsProduct(x, w);
    TimesIsProduct(q, w);
    if x < q { TimesMono(x, q, w); }
    if q < x { TimesMono(q, x, w); }
  }

  /** With power-of-two clusters of at most 64 KB the pre-allocated sizes are whole
      numbers of clusters, which is what Creatable asks for. */
  lemma PreallocWholeClusters(v: Volume, code: nat)
    requires v.secPerClus in {1, 2, 4, 8, 16, 32, 64, 128}
    ensures SECTOR_SIZE <= PreallocBytes(code) < U32
    ensures var n := PreallocBytes(code) / SECTOR_SIZE; Times(ClustersFor(v, n), v.secPerClus) == n
  {
    hide Times;
    var n, w := PreallocBytes(code) / SECTOR_SIZE, v.secPerClus;
    var m := n / 128;
    assert n == 128 * m;
    hide PreallocBytes;
    var q := match w case 1 => 128 * m case 2 => 64 * m case 4 => 32 * m case 8 => 16 * m
                     case 16 => 8 * m case 32 => 4 * m case 64 => 2 * m case _ => m;
    RoundUp(n, w, q);
    TimesIsProduct(q, w);
  }

  // ---- the EEPROM -----------------------------------------------------------------------------

  const MAGIC := 0x4F4C_3200
  const BAUD_AT := 4
  const ESCAPE_AT := 8
  const NUMBER_AT := 10
  const FLAGS_AT := 12
  const PREALLOC_AT := 13
  /** Bytes 0 .. 13 are the configuration. */
  const SAVED_BYTES := 14
  const REC_LO := 16
  const REC_HI := 18

  /** The number of bytes written as the EEPROM records it, in two little-endian halves. */
  function Recorded(eeprom: seq<byte>): nat
    requires |eeprom| >= REC_HI + 2
  {
    Le16(eeprom, REC_LO) + Le16(eeprom, REC_HI) * U16
  }

  datatype Settings = Settings(
    baud: nat, escChar: byte, escCount: byte, logNum: nat, flags: byte, preallocCode: byte)
  {
    predicate Fits() { baud < U32 && logNum < U16 }
  }

  const DEFAULTS := Settings(115200, 0x1A, 3, 1, 0, 2)

  /** The bytes config_save writes, in the order it writes them. */
  function SavedImage(c: Settings): (b: seq<byte>)
    requires c.Fits()
    ensures |b| == SAVED_BYTES
  {
    Bytes32(MAGIC) + Bytes32(c.baud) + [c.escChar, c.escCount] + Bytes16(c.logNum) + [c.flags, c.preallocCode]
  }

  predicate MagicOk(eeprom: seq<byte>)
    requires |eeprom| >= SAVED_BYTES
  {
    Le32(eeprom, 0) == MAGIC
  }

  /** The configuration as it is read back. */
  function Stored(eeprom: seq<byte>): (c: Settings)
    requires |eeprom| >= SAVED_BYTES
    ensures c.Fits()
  {
    Settings(Le32(eeprom, BAUD_AT), eeprom[ESCAPE_AT], eeprom[ESCAPE_AT + 1], Le16(eeprom, NUMBER_AT),
             eeprom[FLAGS_AT], eeprom[PREALLOC_AT])
  }

  /** What config_load makes of it: without the magic number, the defaults. */
  function Loaded(eeprom: seq<byte>): (c: Settings)
    requires |eeprom| >= SAVED_BYTES
    ensures c.Fits()
  {
    if MagicOk(eeprom) then Stored(eeprom) else DEFAULTS
  }

  /** The EEPROM of a first session, byte by byte. */
  lemma DefaultImage()
    ensures SavedImage(DEFAULTS) == [0x00, 0x32, 0x4C, 0x4F, 0x00, 0xC2, 0x01, 0x00, 0x1A, 3, 1, 0, 0, 2]
  {}

  /** The recovery record is the little-endian word at its place, and no part of the configuration. */
  lemma RecordApart(eeprom: seq<byte>, written: nat)
    requires |eeprom| >= REC_HI + 2 && written < U32
    ensures Recorded(eeprom) == Le32(eeprom, 16)
    ensures var e := Splice(eeprom, REC_LO, Bytes32(written));
            Recorded(e) == written && MagicOk(e) == MagicOk(eeprom) && Stored(e) == Stored(eeprom)
  {
    var lo, hi := written % U16, written / U16;
    assert written / 0x1_0000 % 0x100 == hi % 0x100 && written / 0x100_0000 == hi / 0x100;
    assert written % 0x100 == lo % 0x100 && written / 0x100 % 0x100 == lo / 0x100;
  }

  /** What was saved is loaded, and the recovery record is left alone. */
  lemma SaveRoundTrip(eeprom: seq<byte>, c: Settings)
    requires |eeprom| >= REC_HI + 2 && c.Fits()
    ensures var e := Splice(eeprom, 0, SavedImage(c));
            MagicOk(e) && Stored(e) == c && Loaded(e) == c && Recorded(e) == Recorded(eeprom)
  {
    hide Bytes32, Bytes16, Le32, Splice;
    var b, e := SavedImage(c), Splice(eeprom, 0, SavedImage(c));
    assert e[..SAVED_BYTES] == b;
    assert e[0..4] == b[0..4] == Bytes32(MAGIC);
    assert e[BAUD_AT..BAUD_AT + 4] == b[4..8] == Bytes32(c.baud);
    assert e[NUMBER_AT..NUMBER_AT + 2] == b[10..12] == Bytes16(c.logNum);
    Le32OfBytes32(e, 0, MAGIC);
    Le32OfBytes32(e, BAUD_AT, c.baud);
    Le16OfBytes16(e, NUMBER_AT, c.logNum);
  }

  /** The magic number is written first: from the fourth byte on a save cut short passes for a
      complete one, and the next session loads the fields written so far mixed with the old
      ones. */
  lemma PartialSavePasses(eeprom: seq<byte>, c: Settings, k: nat)
    requires |eeprom| >= REC_HI + 2 && c.Fits() && 4 <= k <= SAVED_BYTES
    ensures var e := Splice(eeprom, 0, SavedImage(c)[..k]);
            && MagicOk(e) && Loaded(e) == Stored(e)
            && (k <= NUMBER_AT ==> Loaded(e).logNum == Le16(eeprom, NUMBER_AT))
            && (k >= NUMBER_AT + 2 ==> Loaded(e).logNum == c.logNum)
  {
    hide Bytes32, Bytes16;
    var b, e := SavedImage(c), Splice(eeprom, 0, SavedImage(c)[..k]);
    assert e[0..4] == b[0..4] == Bytes32(MAGIC);
    Le32OfBytes32(e, 0, MAGIC);
    if k >= NUMBER_AT + 2 {
      assert e[NUMBER_AT..NUMBER_AT + 2] == b[10..12] == Bytes16(c.logNum);
      Le16OfBytes16(e, NUMBER_AT, c.logNum);
    }
  }

  /** Cut between the two bytes of the log number, the step from 255 to 256 leaves 0. */
  lemma PartialSaveInput(eeprom: seq<byte>, c: Settings)
    requires |eeprom| >= REC_HI + 2 && c.Fits() && c.logNum == 256 && Le16(eeprom, NUMBER_AT) == 255
    ensures var e := Splice(eeprom, 0, SavedImage(c)[..NUMBER_AT + 1]); MagicOk(e) && Loaded(e).logNum == 0
  {
    PartialSavePasses(eeprom, c, NUMBER_AT + 1);
  }

  lemma NothingSaved(e: seq<byte>)
    ensures Splice(e, 0, []) == e
  {}

  /** The next bytes of a save that has written b so far. */
  method SaveNext(eeprom: array<byte>, at: nat, x: seq<byte>, ghost e: seq<byte>, ghost b: seq<byte>)
    returns (ghost b': seq<byte>)
    requires at == |b| && |b| + |x| <= |e| && eeprom[..] == Splice(e, 0, b)
    modifies eeprom
    ensures b' == b + x && eeprom[..] == Splice(e, 0, b')
  {
    SpliceNext(e, b, x);
    StoreBytes(eeprom, at, x);
    b' := b + x;
  }

  class Config {
    var baud: nat
    var escChar: byte
    var escCount: byte
    var logNum: nat
    var flags: byte
    var preallocCode: byte

    function View(): Settings
      reads this
    {
      Settings(baud, escChar, escCount, logNum, flags, preallocCode)
    }

    constructor ()
      ensures View() == DEFAULTS
    {
      baud, escChar, escCount, logNum, flags, preallocCode := 115200, 0x1A, 3, 1, 0, 2;
    }

    /** config_defaults. */
    method SetDefaults()
      modifies this
      ensures View() == DEFAULTS
    {
      baud, escChar, escCount, logNum, flags, preallocCode := 115200, 0x1A, 3, 1, 0, 2;
    }

    /** config_save. */
    method Save(eeprom: array<byte>)
      requires eeprom.Length >= REC_HI + 2 && View().Fits()
      modifies eeprom
      ensures eeprom[..] == Splice(old(eeprom[..]), 0, SavedImage(View()))
      ensures MagicOk(eeprom[..]) && Stored(eeprom[..]) == View() && Recorded(eeprom[..]) == old(Recorded(eeprom[..]))
    {
      hide Recorded, Stored, MagicOk, Bytes32, Bytes16, Splice;
      ghost var e, b := eeprom[..], [];
      SaveRoundTrip(e, View());
      NothingSaved(e);
      b := SaveNext(eeprom, 0, Bytes32(MAGIC), e, b);
      b := SaveNext(eeprom, BAUD_AT, Bytes32(baud), e, b);
      b := SaveNext(eeprom, ESCAPE_AT, [escChar], e, b);
      b := SaveNext(eeprom, ESCAPE_AT + 1, [escCount], e, b);
      b := SaveNext(eeprom, NUMBER_AT, Bytes16(logNum), e, b);
      b := SaveNext(eeprom, FLAGS_AT, [flags], e, b);
      b := SaveNext(eeprom, PREALLOC_AT, [preallocCode], e, b);
      assert b == SavedImage(View());
    }

    /** config_load: a first session writes and uses the defaults. */
    method Load(eeprom: array<byte>)
      requires eeprom.Length >= REC_HI + 2
      modifies this, eeprom
      ensures View() == old(Loaded(eeprom[..])) && View().Fits()
      ensures if old(MagicOk(eeprom[..])) then eeprom[..] == old(eeprom[..])
              else eeprom[..] == Splice(old(eeprom[..]), 0, SavedImage(DEFAULTS))
    {
      var e := eeprom[..];
      if Le32(e, 0) != MAGIC {
        SetDefaults();
        Save(eeprom);
        return;
      }
      baud := Le32(e, BAUD_AT);
      escChar, escCount := e[ESCAPE_AT], e[ESCAPE_AT + 1];
      logNum := Le16(e, NUMBER_AT);
      flags, preallocCode := e[FLAGS_AT], e[PREALLOC_AT];
    }
  }
}
