/**
 * The engine registry of `bootloader_custom_ota.c`: three build-time tables
 * (decompressors, diff engines, storage sinks), the tag search over them, and
 * the choice of the three stages from the header (`engines_init`).
 * Entries holding function addresses become a tag plus a variant of `EngineKind`.
 */
module Engines {
  import opened OtaTypes
  import opened OtaHeader

  /** `bootloader_custom_ota_engine_type_t`: stage indices; stage i forwards to stage i+1. */
  const DECOMPRESS_ENGINE: nat := 0
  const DIFF_ENGINE: nat := 1
  const STORAGE_ENGINE: nat := 2
  const MAX_ENGINE: nat := 3

  /** Type tags of the three enums. */
  const COMPRESS_NONE: int := 0
  const COMPRESS_XZ: int := 1
  const DIFF_NONE: int := 0
  const DIFF_DDELTA: int := 1
  const STORAGE_FLASH: int := 0
  const STORAGE_FLASH_DIFF: int := 1

  /** The build options that change the tables and the update path. */
  datatype BuildConfig = BuildConfig(
    decompressorXz: bool,  // CONFIG_BOOTLOADER_DECOMPRESSOR_XZ
    diffEnabled: bool,     // CONFIG_BOOTLOADER_DIFF_ENABLED
    diffDdelta: bool,      // CONFIG_BOOTLOADER_DIFF_DDELTA
    rollback: bool,        // CONFIG_BOOTLOADER_APP_ROLLBACK_ENABLE
    signedApps: bool)      // CONFIG_SECURE_SIGNED_APPS_RSA_SCHEME && CONFIG_SECURE_BOOT_V2_ENABLED

  /** The implementation behind an entry's `init`/`input` pair. */
  datatype EngineKind =
    | DecompressorNone
    | DecompressorXz
    | DiffNone
    | DiffDdelta
    | StorageFlash
    | StorageFlashDiff
  {
    /** The stage an implementation belongs to. */
    function Stage(): nat
    {
      match this
      case DecompressorNone => DECOMPRESS_ENGINE
      case DecompressorXz => DECOMPRESS_ENGINE
      case DiffNone => DIFF_ENGINE
      case DiffDdelta => DIFF_ENGINE
      case StorageFlash => STORAGE_ENGINE
      case StorageFlashDiff => STORAGE_ENGINE
    }
  }

  /** `bootloader_custom_ota_engine_t`. */
  datatype Engine = Engine(tag: int, kind: EngineKind)

  function DecompressorEngines(cfg: BuildConfig): seq<Engine>
  {
    [Engine(COMPRESS_NONE, DecompressorNone)]
    + (if cfg.decompressorXz then [Engine(COMPRESS_XZ, DecompressorXz)] else [])
  }

  function DiffEngines(cfg: BuildConfig): seq<Engine>
  {
    [Engine(DIFF_NONE, DiffNone)]
    + (if cfg.diffDdelta then [Engine(DIFF_DDELTA, DiffDdelta)] else [])
  }

  function StorageEngines(cfg: BuildConfig): seq<Engine>
  {
    [Engine(STORAGE_FLASH, StorageFlash)]
    + (if cfg.diffEnabled then [Engine(STORAGE_FLASH_DIFF, StorageFlashDiff)] else [])
  }

  /** The index of the first entry of `table` whose tag is `tag`, if any. */
  function FirstWithTag(table: seq<Engine>, tag: int): (r: Option<nat>)
    ensures r.Some? ==> r.value < |table| && table[r.value].tag == tag
                        && forall j | 0 <= j < r.value :: table[j].tag != tag
    ensures r.None? ==> forall j | 0 <= j < |table| :: table[j].tag != tag
  {
    if table == [] then None
    else if table[0].tag == tag then Some(0)
    else match FirstWithTag(table[1..], tag)
      case None => None
      case Some(i) => Some(i + 1)
  }

  /**
   * `bootloader_custom_ota_engine_get`: a linear scan returning the first
   * matching entry (as its index), or nothing (NULL).
   */
  method EngineGet(engineType: int, engines: seq<Engine>) returns (r: Option<nat>)
    ensures r.Some? ==> r.value < |engines| && engines[r.value].tag == engineType
                        && forall j | 0 <= j < r.value :: engines[j].tag != engineType
    ensures r.None? <==> forall j | 0 <= j < |engines| :: engines[j].tag != engineType
    ensures r == FirstWithTag(engines, engineType)
  {
    r := None;
    var loop := 0;
    while loop < |engines|
      invariant loop <= |engines|
      invariant forall j | 0 <= j < loop :: engines[j].tag != engineType
    {
      if engineType == engines[loop].tag {
        r := Some(loop);
        break;
      }
      loop := loop + 1;
    }
    FirstWithTagUnique(engines, engineType, r);
  }

  /** The first-match contract determines the answer, so any search meeting it agrees with FirstWithTag. */
  lemma {:induction false} FirstWithTagUnique(table: seq<Engine>, tag: int, r: Option<nat>)
    requires r.Some? ==> r.value < |table| && table[r.value].tag == tag
                         && forall j | 0 <= j < r.value :: table[j].tag != tag
    requires r.None? ==> forall j | 0 <= j < |table| :: table[j].tag != tag
    ensures r == FirstWithTag(table, tag)
  {
  }

  /**
   * The three stages `engines_init` selects: the decompressor and the diff
   * engine by the header's tags (failing if either tag is not registered),
   * the storage sink by build configuration alone.
   */
  function SelectEngines(cfg: BuildConfig, h: Header): (r: Option<seq<Engine>>)
    ensures r.Some? ==> |r.value| == MAX_ENGINE
  {
    var dec := FirstWithTag(DecompressorEngines(cfg), h.compressType);
    var diff := FirstWithTag(DiffEngines(cfg), h.deltaType);
    if dec.None? || diff.None? then None
    else
      Some([DecompressorEngines(cfg)[dec.value],
            DiffEngines(cfg)[diff.value],
            if cfg.diffEnabled then StorageEngines(cfg)[STORAGE_FLASH_DIFF]
            else StorageEngines(cfg)[STORAGE_FLASH]])
  }

  /**
   * Which headers have a complete pipeline, and what it is: compress tag 0,
   * or 1 with XZ built in; delta tag 0, or 1 with ddelta built in; the sink is
   * the non-writing diff sink exactly when diff support is built in,
   * whatever the header says.
   */
  lemma SelectEnginesSpec(cfg: BuildConfig, h: Header)
    ensures SelectEngines(cfg, h).Some? <==>
              && (h.compressType == COMPRESS_NONE || (h.compressType == COMPRESS_XZ && cfg.decompressorXz))
              && (h.deltaType == DIFF_NONE || (h.deltaType == DIFF_DDELTA && cfg.diffDdelta))
    ensures SelectEngines(cfg, h).Some? ==>
              var e := SelectEngines(cfg, h).value;
              && e[DECOMPRESS_ENGINE].kind == (if h.compressType == COMPRESS_NONE then DecompressorNone else DecompressorXz)
              && e[DIFF_ENGINE].kind == (if h.deltaType == DIFF_NONE then DiffNone else DiffDdelta)
              && e[STORAGE_ENGINE].kind == (if cfg.diffEnabled then StorageFlashDiff else StorageFlash)
  {
    DecompressorTag(cfg, h.compressType);
    DiffTag(cfg, h.deltaType);
  }

  lemma DecompressorTag(cfg: BuildConfig, tag: int)
    ensures FirstWithTag(DecompressorEngines(cfg), tag)
            == if tag == COMPRESS_NONE then Some(0) else if tag == COMPRESS_XZ && cfg.decompressorXz then Some(1) else None
  {
    var t := DecompressorEngines(cfg);
    assert t[1..] == if cfg.decompressorXz then [Engine(COMPRESS_XZ, DecompressorXz)] else [];
  }

  lemma DiffTag(cfg: BuildConfig, tag: int)
    ensures FirstWithTag(DiffEngines(cfg), tag)
            == if tag == DIFF_NONE then Some(0) else if tag == DIFF_DDELTA && cfg.diffDdelta then Some(1) else None
  {
    var t := DiffEngines(cfg);
    assert t[1..] == if cfg.diffDdelta then [Engine(DIFF_DDELTA, DiffDdelta)] else [];
  }

  /** A resolved pipeline has each stage's engine in the stage's own table. */
  predicate Wired(engines: seq<Engine>)
  {
    |engines| == MAX_ENGINE && forall i | 0 <= i < MAX_ENGINE :: engines[i].kind.Stage() == i
  }

  lemma SelectedIsWired(cfg: BuildConfig, h: Header)
    requires SelectEngines(cfg, h).Some?
    ensures Wired(SelectEngines(cfg, h).value)
  {
    SelectEnginesSpec(cfg, h);
  }

  /**
   * An engine's `init`: every implementation returns 0. The none decompressor
   * touches nothing; the others record the shared config/header/engine table
   * addresses, which this model replaces by the explicit config object.
   */
  function InitStatus(kind: EngineKind): (status: int)
    ensures status == 0
  {
    match kind
    case DecompressorNone => 0
    case DecompressorXz => 0     // bootloader_decompressor_init
    case DiffNone => 0
    case DiffDdelta => 0
    case StorageFlash => 0
    case StorageFlashDiff => 0
  }

  /**
   * The init loop of `engines_init`: stages 0, 1, 2 in order, each stage's
   * `init` called only if every earlier one returned 0. Returns the first
   * failing stage, if any. `init` gives each implementation's status.
   */
  method InitStages(engines: seq<Engine>, init: EngineKind -> int) returns (failed: Option<nat>)
    requires |engines| == MAX_ENGINE
    ensures failed.Some? ==> failed.value < MAX_ENGINE && init(engines[failed.value].kind) != 0
                             && forall j | 0 <= j < failed.value :: init(engines[j].kind) == 0
    ensures failed.None? <==> forall j | 0 <= j < MAX_ENGINE :: init(engines[j].kind) == 0
  {
    failed := None;
    for loop := 0 to MAX_ENGINE
      invariant forall j | 0 <= j < loop :: init(engines[j].kind) == 0
    {
      if init(engines[loop].kind) != 0 {
        failed := Some(loop);
        return;
      }
    }
  }

  /**
   * `bootloader_custom_ota_engines_init`: looks up the decompressor and the
   * diff engine by the header's tags (giving up, before any `init` runs, when
   * either is missing), takes the storage sink from the build configuration,
   * then runs the three `init`s in stage order.
   */
  method EnginesInit(cfg: BuildConfig, h: Header) returns (ok: bool, engines: seq<Engine>)
    ensures ok <==> SelectEngines(cfg, h).Some?
    ensures ok ==> engines == SelectEngines(cfg, h).value && Wired(engines)
  {
    engines := [];
    var dec := EngineGet(h.compressType, DecompressorEngines(cfg));
    if dec.None? {
      return false, engines;
    }
    var diff := EngineGet(h.deltaType, DiffEngines(cfg));
    if diff.None? {
      return false, engines;
    }
    var storage := if cfg.diffEnabled then StorageEngines(cfg)[STORAGE_FLASH_DIFF] else StorageEngines(cfg)[STORAGE_FLASH];
    engines := [DecompressorEngines(cfg)[dec.value], DiffEngines(cfg)[diff.value], storage];
    SelectedIsWired(cfg, h);
    var failed := InitStages(engines, InitStatus);
    ok := failed.None?;
  }
}
