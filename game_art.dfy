/**
 * The art bookkeeping of GameArtManager.cpp: the table of kinds of art with
 * their file-name suffixes, the set of kinds whose images are cached (a bit
 * mask), the per-game cache of images, and the order in which `load` and
 * `setArt` name the files of the ART directory.
 *
 * Images are values of the type parameter `Pixmap`; the ART directory is
 * given to the methods as functions from file names to what reading or
 * writing that file yields.
 */
module GameArt {
  import opened Wrappers

  /** GameArtType. */
  datatype ArtType = Icon | Front | Back | Spine | Screenshot1 | Screenshot2 | Background | Logo

  /** GameArtProperties: the file-name suffix and the size images are scaled to. */
  datatype ArtProperties = ArtProperties(suffix: string, width: nat, height: nat)

  /**
   * The table initArtProperties fills in: every kind has a suffix made of '_'
   * and then capital letters and digits (so no dot), and a non-empty size.
   */
  function Properties(t: ArtType): (p: ArtProperties)
    ensures 2 <= |p.suffix| <= 5 && p.suffix[0] == '_' && '.' !in p.suffix
    ensures p.width > 0 && p.height > 0
    ensures forall i :: 1 <= i < |p.suffix| ==> 'A' <= p.suffix[i] <= 'Z' || '0' <= p.suffix[i] <= '9'
  {
    match t
    case Icon => ArtProperties("_ICO", 64, 64)
    case Front => ArtProperties("_COV", 140, 200)
    case Back => ArtProperties("_COV2", 242, 344)
    case Spine => ArtProperties("_LAB", 18, 240)
    case Screenshot1 => ArtProperties("_SCR", 250, 188)
    case Screenshot2 => ArtProperties("_SCR2", 250, 188)
    case Background => ArtProperties("_BG", 640, 480)
    case Logo => ArtProperties("_LGO", 300, 125)
  }

  function Suffix(t: ArtType): string
  {
    Properties(t).suffix
  }

  /** The extensions `load` tries, in this order. */
  const Extensions: seq<string> := [".png", ".jpeg", ".jpg", ".bmp"]

  /** The extension `setArt` always writes. */
  const SavedExtension: string := ".png"

  /** The name of an art file in the ART directory: id, suffix, extension. */
  function ArtFileName(id: string, t: ArtType, ext: string): string
  {
    id + Suffix(t) + ext
  }

  /** The file names `load` tries for one game and one kind of art, in order. */
  function Candidates(id: string, t: ArtType): (names: seq<string>)
    ensures |names| == |Extensions|
    ensures forall i :: 0 <= i < |names| ==> names[i] == ArtFileName(id, t, Extensions[i])
  {
    seq(|Extensions|, i requires 0 <= i < |Extensions| => ArtFileName(id, t, Extensions[i]))
  }

  /** Every kind of art has its own suffix, and no suffix holds a dot. */
  lemma SuffixesDistinct(t: ArtType, u: ArtType)
    ensures Suffix(t) == Suffix(u) ==> t == u
    ensures '.' !in Suffix(t)
  {
  }

  /** Two names "suffix + extension" agree only if suffixes and extensions agree. */
  lemma {:induction false} SplitAtFirstDot(s1: string, e1: string, s2: string, e2: string)
    requires '.' !in s1 && '.' !in s2
    requires |e1| > 0 && e1[0] == '.' && |e2| > 0 && e2[0] == '.'
    requires s1 + e1 == s2 + e2
    ensures s1 == s2 && e1 == e2
  {
    assert (s2 + e2)[|s1|] == '.';
    assert |s1| >= |s2|;
    assert (s1 + e1)[|s2|] == '.';
    assert |s2| >= |s1|;
    assert s1 == (s1 + e1)[..|s1|];
    assert s2 == (s2 + e2)[..|s2|];
    assert e1 == (s1 + e1)[|s1|..];
    assert e2 == (s2 + e2)[|s2|..];
  }

  /**
   * For one game, the file names of different kinds of art or different
   * extensions are different files ("_COV" and "_COV2" included).
   */
  lemma ArtFileNamesDistinct(id: string, t: ArtType, u: ArtType, e1: string, e2: string)
    requires e1 in Extensions && e2 in Extensions
    requires ArtFileName(id, t, e1) == ArtFileName(id, u, e2)
    ensures t == u && e1 == e2
  {
    SuffixesDistinct(t, u);
    SuffixesDistinct(u, t);
    assert ArtFileName(id, t, e1)[|id|..] == Suffix(t) + e1;
    assert ArtFileName(id, u, e2)[|id|..] == Suffix(u) + e2;
    SplitAtFirstDot(Suffix(t), e1, Suffix(u), e2);
  }

  // ---------------------------------------------------------------------------
  // The mask of cached kinds (m_cached_types)
  //
  // Every GameArtType is a flag of its own, so the mask is the set of kinds
  // whose flags are set: `mask & t` tests membership, `mask |= t` adds t and
  // `mask ^= t` toggles t.

  type TypeMask = set<ArtType>

  predicate IsCached(mask: TypeMask, t: ArtType)
  {
    t in mask
  }

  /** addCacheType: `mask |= t`. */
  function AddType(mask: TypeMask, t: ArtType): TypeMask
  {
    mask + {t}
  }

  /** `mask ^= t`: t's flag flipped, every other flag kept. */
  function Toggle(mask: TypeMask, t: ArtType): TypeMask
  {
    if t in mask then mask - {t} else mask + {t}
  }

  /** The mask without t: what removeCacheType leaves. */
  function RemoveType(mask: TypeMask, t: ArtType): TypeMask
  {
    mask - {t}
  }

  /** Adding a kind caches it and leaves whether any other kind is cached as it was. */
  lemma AddTypeCachesIt(mask: TypeMask, t: ArtType, u: ArtType)
    ensures IsCached(AddType(mask, t), u) <==> IsCached(mask, u) || u == t
  {
  }

  /** Adding a kind twice is adding it once. */
  lemma AddTypeIdempotent(mask: TypeMask, t: ArtType)
    ensures AddType(AddType(mask, t), t) == AddType(mask, t)
  {
  }

  /** Removing a kind that is not cached leaves the mask as it is. */
  lemma RemoveUncachedType(mask: TypeMask, t: ArtType)
    requires !IsCached(mask, t)
    ensures RemoveType(mask, t) == mask
  {
  }

  /**
   * For a cached kind, the XOR of removeCacheType clears its flag and sets
   * none; on a kind that is not cached the same XOR would set it, which is
   * why removeCacheType tests first.
   */
  lemma ToggleCachedType(mask: TypeMask, t: ArtType)
    ensures IsCached(mask, t) ==> Toggle(mask, t) == RemoveType(mask, t)
    ensures !IsCached(mask, t) ==> IsCached(Toggle(mask, t), t)
  {
  }

  /** After removing a kind it is no longer cached; every other kind is cached as before. */
  lemma RemoveTypeUncaches(mask: TypeMask, t: ArtType, u: ArtType)
    ensures IsCached(RemoveType(mask, t), u) <==> IsCached(mask, u) && u != t
  {
  }

  // ---------------------------------------------------------------------------
  // The image cache (m_cache): game id -> kind of art -> image

  type GameCache<Pixmap> = map<ArtType, Pixmap>
  type ArtCache<Pixmap> = map<string, GameCache<Pixmap>>

  /** findInCache: nothing when the game has no cache or no image of that kind. */
  function Lookup<Pixmap>(cache: ArtCache<Pixmap>, id: string, t: ArtType): Option<Pixmap>
  {
    if id in cache && t in cache[id] then Some(cache[id][t]) else None
  }

  /** cacheArt: set the image in the game's cache, creating that cache when there is none. */
  function Store<Pixmap>(cache: ArtCache<Pixmap>, id: string, t: ArtType, p: Pixmap): ArtCache<Pixmap>
  {
    if id in cache then cache[id := cache[id][t := p]] else cache[id := map[t := p]]
  }

  /** clearCache: drop the images of one kind from every game's cache. */
  function WithoutType<Pixmap>(cache: ArtCache<Pixmap>, t: ArtType): ArtCache<Pixmap>
  {
    map id | id in cache :: cache[id] - {t}
  }

  /** deleteArt: drop one kind from one game's cache. */
  function WithoutGameType<Pixmap>(cache: ArtCache<Pixmap>, id: string, t: ArtType): ArtCache<Pixmap>
  {
    if id in cache then cache[id := cache[id] - {t}] else cache
  }

  /** After storing p for (id, t), that entry yields p and every other entry is as before. */
  lemma LookupAfterStore<Pixmap>(cache: ArtCache<Pixmap>, id: string, t: ArtType, p: Pixmap, g: string, u: ArtType)
    ensures Lookup(Store(cache, id, t, p), g, u) == if g == id && u == t then Some(p) else Lookup(cache, g, u)
    ensures Store(cache, id, t, p).Keys == cache.Keys + {id}
  {
  }

  /** After clearing kind t, no game has an image of kind t and images of other kinds stay. */
  lemma LookupAfterWithoutType<Pixmap>(cache: ArtCache<Pixmap>, t: ArtType, g: string, u: ArtType)
    ensures Lookup(WithoutType(cache, t), g, u) == if u == t then None else Lookup(cache, g, u)
    ensures WithoutType(cache, t).Keys == cache.Keys
  {
  }

  /** deleteArt forgets only (id, t). */
  lemma LookupAfterWithoutGameType<Pixmap>(cache: ArtCache<Pixmap>, id: string, t: ArtType, g: string, u: ArtType)
    ensures Lookup(WithoutGameType(cache, id, t), g, u) == if g == id && u == t then None else Lookup(cache, g, u)
  {
  }

  /** clearArts forgets every image of one game and nothing else. */
  lemma LookupAfterRemoveGame<Pixmap>(cache: ArtCache<Pixmap>, id: string, g: string, u: ArtType)
    ensures Lookup(cache - {id}, g, u) == if g == id then None else Lookup(cache, g, u)
    ensures id !in cache - {id}
  {
  }

  // ---------------------------------------------------------------------------
  // Finding an art file

  /** The image of the first name in `names` for which `art` yields one. */
  function FirstArt<Pixmap>(art: string -> Option<Pixmap>, names: seq<string>): Option<Pixmap>
  {
    if names == [] then None
    else if art(names[0]).Some? then art(names[0])
    else FirstArt(art, names[1..])
  }

  /** The first usable name wins: names after it are not looked at. */
  lemma {:induction false} FirstArtIsFirstUsable<Pixmap>(art: string -> Option<Pixmap>, names: seq<string>, i: nat)
    requires i < |names| && art(names[i]).Some?
    requires forall j :: 0 <= j < i ==> art(names[j]).None?
    ensures FirstArt(art, names) == art(names[i])
  {
    if i > 0 {
      FirstArtIsFirstUsable(art, names[1..], i - 1);
    }
  }

  /** Nothing is found exactly when no name is usable. */
  lemma {:induction false} FirstArtNone<Pixmap>(art: string -> Option<Pixmap>, names: seq<string>)
    ensures FirstArt(art, names).None? <==> forall j :: 0 <= j < |names| ==> art(names[j]).None?
  {
    if names != [] {
      FirstArtNone(art, names[1..]);
      assert forall j :: 0 < j < |names| ==> names[j] == names[1..][j - 1];
    }
  }

  /** An image as `load` and `setArt` hand it out: brought to the size of its kind. */
  function Fitted<Pixmap>(p: Option<Pixmap>, t: ArtType, fit: (Pixmap, ArtProperties) -> Pixmap): Option<Pixmap>
  {
    if p.Some? then Some(fit(p.value, Properties(t))) else None
  }

  /** What `setArt` ends with. */
  datatype SetArtResult<Pixmap> =
    | NullPixmap                                  // the source file is not an image
    | SaveFailed(fileName: string)                // the IOException
    | Saved(fileName: string, pixmap: Pixmap)

  class GameArtManager<Pixmap> {
    /** m_cached_types: the kinds whose images are kept in the cache. */
    var cachedTypes: TypeMask
    /** m_cache. */
    var cache: ArtCache<Pixmap>

    constructor()
      ensures cachedTypes == {} && cache == map[]
    {
      cachedTypes := {};
      cache := map[];
    }

    method AddCacheType(t: ArtType)
      modifies this
      ensures cachedTypes == AddType(old(cachedTypes), t)
      ensures cache == old(cache)
    {
      cachedTypes := cachedTypes + {t};
    }

    /** Stop caching t; with `clear`, also drop the cached images of kind t. */
    method RemoveCacheType(t: ArtType, clear: bool)
      modifies this
      ensures cachedTypes == RemoveType(old(cachedTypes), t)
      ensures cache == if IsCached(old(cachedTypes), t) && clear then WithoutType(old(cache), t) else old(cache)
    {
      if !IsCached(cachedTypes, t) {
        return;
      }
      cachedTypes := Toggle(cachedTypes, t);
      if clear {
        ClearCache(t);
      }
    }

    /** clearCache: walk every game's cache and erase its entry of kind t, if any. */
    method ClearCache(t: ArtType)
      modifies this
      ensures cache == WithoutType(old(cache), t)
      ensures cachedTypes == old(cachedTypes)
    {
      var remaining := cache.Keys;
      while remaining != {}
        invariant remaining <= cache.Keys == old(cache).Keys
        invariant forall id :: id in cache ==>
                    cache[id] == if id in remaining then old(cache)[id] else old(cache)[id] - {t}
        invariant cachedTypes == old(cachedTypes)
        decreases remaining
      {
        var id :| id in remaining;
        if t in cache[id] {
          cache := cache[id := cache[id] - {t}];
        }
        remaining := remaining - {id};
      }
    }

    /** findInCache: nothing for a game without a cache; otherwise the image of kind t, if any. */
    function FindInCache(id: string, t: ArtType): (r: Option<Pixmap>)
      reads this
      ensures id !in cache ==> r.None?
      ensures r.Some? <==> id in cache && t in cache[id]
      ensures r.Some? ==> r.value == cache[id][t]
    {
      Lookup(cache, id, t)
    }

    method CacheArt(id: string, t: ArtType, p: Pixmap)
      modifies this
      ensures cache == Store(old(cache), id, t, p)
      ensures FindInCache(id, t) == Some(p)
      ensures forall g, u :: (g != id || u != t) ==> FindInCache(g, u) == Lookup(old(cache), g, u)
      ensures cachedTypes == old(cachedTypes)
    {
      if id in cache {
        cache := cache[id := cache[id][t := p]];
      } else {
        var gameCache := map[t := p];
        cache := cache[id := gameCache];
      }
    }

    /**
     * load: a cached image when t is a cached kind and one is there;
     * otherwise, if the ART directory exists, the first of the candidate
     * files that holds an image, scaled to the size of t and cached when t
     * is a cached kind.
     */
    method Load(id: string, t: ArtType, dirExists: bool,
                art: string -> Option<Pixmap>, fit: (Pixmap, ArtProperties) -> Pixmap)
      returns (pixmap: Option<Pixmap>)
      modifies this
      ensures cachedTypes == old(cachedTypes)
      ensures IsCached(cachedTypes, t) && Lookup(old(cache), id, t).Some? ==>
                pixmap == Lookup(old(cache), id, t) && cache == old(cache)
      ensures !(IsCached(cachedTypes, t) && Lookup(old(cache), id, t).Some?) ==>
                && pixmap == (if dirExists then Fitted(FirstArt(art, Candidates(id, t)), t, fit) else None)
                && cache == if pixmap.Some? && IsCached(cachedTypes, t)
                            then Store(old(cache), id, t, pixmap.value) else old(cache)
    {
      var cached := FindInCache(id, t);
      if IsCached(cachedTypes, t) && cached.Some? {
        return cached;
      }
      if !dirExists {
        return None;
      }
      var sfx := Properties(t).suffix;
      ghost var names := Candidates(id, t);
      for i := 0 to |Extensions|
        invariant FirstArt(art, names) == FirstArt(art, names[i..])
        invariant cache == old(cache) && cachedTypes == old(cachedTypes)
      {
        var fileName := id + sfx + Extensions[i];
        assert names[i..][0] == fileName;
        var image := art(fileName);
        if image.None? {
          assert names[i..][1..] == names[i + 1..];
          continue;
        }
        var scaled := fit(image.value, Properties(t));
        if IsCached(cachedTypes, t) {
          CacheArt(id, t, scaled);
        }
        return Some(scaled);
      }
      return None;
    }

    /** The cache part of deleteArt: the game's image of kind t is forgotten. */
    method DeleteArt(id: string, t: ArtType)
      modifies this
      ensures cache == WithoutGameType(old(cache), id, t)
      ensures cachedTypes == old(cachedTypes)
    {
      if id in cache {
        cache := cache[id := cache[id] - {t}];
      }
    }

    /** The cache part of clearArts: the game's whole cache is dropped. */
    method ClearArts(id: string)
      modifies this
      ensures cache == old(cache) - {id}
      ensures cachedTypes == old(cachedTypes)
    {
      cache := cache - {id};
    }

    /**
     * setArt: read the image from `source`, scale it to the size of t, save
     * it as id + suffix + ".png" and cache it when t is a cached kind.
     * `saves` says whether saving under a file name succeeds.
     */
    method SetArt(id: string, t: ArtType, source: Option<Pixmap>,
                  fit: (Pixmap, ArtProperties) -> Pixmap, saves: string -> bool)
      returns (result: SetArtResult<Pixmap>)
      modifies this
      ensures cachedTypes == old(cachedTypes)
      ensures source.None? ==> result == NullPixmap && cache == old(cache)
      ensures source.Some? && !saves(ArtFileName(id, t, SavedExtension)) ==>
                result == SaveFailed(ArtFileName(id, t, SavedExtension)) && cache == old(cache)
      ensures source.Some? && saves(ArtFileName(id, t, SavedExtension)) ==>
                && result == Saved(ArtFileName(id, t, SavedExtension), fit(source.value, Properties(t)))
                && cache == if IsCached(cachedTypes, t)
                            then Store(old(cache), id, t, result.pixmap) else old(cache)
    {
      if source.None? {
        return NullPixmap;
      }
      var scaled := fit(source.value, Properties(t));
      var fileName := id + Properties(t).suffix + SavedExtension;
      if !saves(fileName) {
        return SaveFailed(fileName);
      }
      if IsCached(cachedTypes, t) {
        CacheArt(id, t, scaled);
      }
      result := Saved(fileName, scaled);
    }
  }
}
