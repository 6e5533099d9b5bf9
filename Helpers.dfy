/**
 * Small value helpers of the file panels: the persisted quick-search key
 * modifier, the equality of volume statistics, and the cache from file name
 * extensions to uniform type identifiers (UTIs).
 */
module PanelHelpers {
  import opened Base

  // ---------------------------------------------------------------------------
  // Quick search key modifier
  // ---------------------------------------------------------------------------

  /** The modifier keys that start a quick search; the persisted values are 0..4. */
  datatype KeyModif = WithAlt | WithCtrlAlt | WithShiftAlt | WithoutModif | Disabled

  /** The integer a modifier is persisted as. */
  function KeyModifValue(m: KeyModif): (v: int)
    ensures 0 <= v <= 4
  {
    match m
    case WithAlt => 0
    case WithCtrlAlt => 1
    case WithShiftAlt => 2
    case WithoutModif => 3
    case Disabled => 4
  }

  /** Reads a persisted modifier back; anything outside 0..4 falls back to WithAlt. */
  function KeyModifFromInt(k: int): (r: KeyModif)
    ensures 0 <= k <= KeyModifValue(Disabled) ==> KeyModifValue(r) == k
    ensures !(0 <= k <= KeyModifValue(Disabled)) ==> r == WithAlt
  {
    if 0 <= k <= 4 then
      if k == 0 then WithAlt
      else if k == 1 then WithCtrlAlt
      else if k == 2 then WithShiftAlt
      else if k == 3 then WithoutModif
      else Disabled
    else WithAlt
  }

  /** Persisting a modifier and reading it back gives the same modifier. */
  lemma KeyModifRoundTrip(m: KeyModif)
    ensures KeyModifFromInt(KeyModifValue(m)) == m
  {
    match m
    case WithAlt =>
    case WithCtrlAlt =>
    case WithShiftAlt =>
    case WithoutModif =>
    case Disabled =>
  }

  /** Reading a value that was already read back changes nothing. */
  lemma KeyModifIdempotent(k: int)
    ensures KeyModifFromInt(KeyModifValue(KeyModifFromInt(k))) == KeyModifFromInt(k)
  {
    KeyModifRoundTrip(KeyModifFromInt(k));
  }

  // ---------------------------------------------------------------------------
  // Volume statistics
  // ---------------------------------------------------------------------------

  /** Sizes of a volume and its name. */
  datatype StatFS = StatFS(totalBytes: uint64, freeBytes: uint64, availBytes: uint64, volumeName: string)

  /** operator== : all four fields agree. */
  function StatFSEqual(a: StatFS, b: StatFS): (r: bool)
    ensures r <==> a == b
  {
    a.totalBytes == b.totalBytes && a.freeBytes == b.freeBytes &&
    a.availBytes == b.availBytes && a.volumeName == b.volumeName
  }

  /** operator!= : some field differs. */
  function StatFSNotEqual(a: StatFS, b: StatFS): (r: bool)
    ensures r <==> !StatFSEqual(a, b)
  {
    a.totalBytes != b.totalBytes || a.freeBytes != b.freeBytes ||
    a.availBytes != b.availBytes || a.volumeName != b.volumeName
  }

  // ---------------------------------------------------------------------------
  // Uniform type identifiers
  // ---------------------------------------------------------------------------

  const DynamicPrefix: string := "dyn.a"

  /** A UTI the system made up for an undeclared type. */
  function IsDynamicUTI(uti: string): (r: bool)
    ensures r <==> |uti| >= |DynamicPrefix| && uti[..|DynamicPrefix|] == DynamicPrefix
    ensures r ==> uti[0] == 'd' && uti[3] == '.'
  {
    StartsWith(uti, DynamicPrefix)
  }

  /** Whatever follows the prefix, a dynamic UTI stays dynamic. */
  lemma DynamicUTIExtended(uti: string, tail: string)
    requires IsDynamicUTI(uti)
    ensures IsDynamicUTI(uti + tail)
  {
    assert (uti + tail)[..|DynamicPrefix|] == uti[..|DynamicPrefix|];
  }

  /**
   * One call of UTIForExtension on the cache `cache`: the UTI returned and the
   * cache afterwards. `systemLookup` stands for the system's preferred
   * identifier for the extension; None when it has none.
   */
  function CachedLookup(cache: map<string, string>, ext: string, systemLookup: string -> Option<string>): (string, map<string, string>)
  {
    if ext in cache then (cache[ext], cache)
    else match systemLookup(ext)
      case Some(uti) => (uti, cache[ext := uti])
      case None => ("", cache)
  }

  /** Asking again for an extension the system knew answers the same string, now from the cache. */
  lemma RepeatedLookupAgrees(cache: map<string, string>, ext: string,
                             systemLookup: string -> Option<string>, laterLookup: string -> Option<string>)
    requires ext in cache || systemLookup(ext).Some?
    ensures ext in CachedLookup(cache, ext, systemLookup).1
    ensures CachedLookup(CachedLookup(cache, ext, systemLookup).1, ext, laterLookup) ==
              CachedLookup(cache, ext, systemLookup)
  {
  }

  /** The cache after a run of calls, one per extension in `exts`. */
  function CacheAfter(cache: map<string, string>, exts: seq<string>, systemLookup: string -> Option<string>): (r: map<string, string>)
    decreases |exts|
  {
    if |exts| == 0 then cache
    else CacheAfter(CachedLookup(cache, exts[0], systemLookup).1, exts[1..], systemLookup)
  }

  /** Entries are never dropped or replaced: the cache only grows. */
  lemma {:induction false} CacheOnlyGrows(cache: map<string, string>, exts: seq<string>, systemLookup: string -> Option<string>)
    ensures forall e :: e in cache ==> e in CacheAfter(cache, exts, systemLookup) &&
                                       CacheAfter(cache, exts, systemLookup)[e] == cache[e]
    decreases |exts|
  {
    if |exts| > 0 {
      CacheOnlyGrows(CachedLookup(cache, exts[0], systemLookup).1, exts[1..], systemLookup);
    }
  }

  /**
   * Once an extension is cached, every later call answers the cached string,
   * whatever the system would say by then.
   */
  lemma CachedAnswerIsSticky(cache: map<string, string>, ext: string, exts: seq<string>,
                             systemLookup: string -> Option<string>, laterLookup: string -> Option<string>)
    requires ext in cache
    ensures CachedLookup(CacheAfter(cache, exts, systemLookup), ext, laterLookup).0 == cache[ext]
  {
    CacheOnlyGrows(cache, exts, systemLookup);
  }

  /** The extension-to-UTI table, filled on demand. */
  class UTIDatabase {
    var extensionToUTI: map<string, string>

    constructor()
      ensures extensionToUTI == map[]
    {
      extensionToUTI := map[];
    }

    method UTIForExtension(ext: string, systemLookup: string -> Option<string>) returns (uti: string)
      modifies this
      ensures ext in old(extensionToUTI) ==> uti == old(extensionToUTI)[ext] && extensionToUTI == old(extensionToUTI)
      ensures ext !in old(extensionToUTI) && systemLookup(ext).Some? ==>
                uti == systemLookup(ext).value && extensionToUTI == old(extensionToUTI)[ext := uti]
      ensures ext !in old(extensionToUTI) && systemLookup(ext).None? ==>
                uti == "" && extensionToUTI == old(extensionToUTI)
      ensures (uti, extensionToUTI) == CachedLookup(old(extensionToUTI), ext, systemLookup)
    {
      if ext in extensionToUTI {
        return extensionToUTI[ext];
      }
      uti := "";
      var found := systemLookup(ext);
      if found.Some? {
        uti := found.value;
        extensionToUTI := extensionToUTI[ext := uti];
      }
    }
  }
}
