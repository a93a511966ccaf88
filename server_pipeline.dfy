/**
 * The server side of the plugin: the `render_block` filter chain that
 * `init` sets up, the object-cache filter `cache_block_output`, and the
 * lazy-load rewrite from module LazyLoad. The host object cache is a map
 * field; the digest `md5(serialize($block))` is a function given to the
 * optimizer when it is made.
 */
module ServerPipeline {
  import opened BlockCache
  import LazyLoad
  import LazyLoadProofs

  /** The two callbacks the plugin can add to `render_block`. */
  datatype Filter = CacheFilter | LazyLoadFilter

  const CacheKeyPrefix: string := "gpo_block_"

  /** The object-cache key of a block whose serialized form hashes to `digest`. */
  function ObjectCacheKey(digest: string): (key: string)
    ensures |key| == |CacheKeyPrefix| + |digest|
    ensures key[..|CacheKeyPrefix|] == CacheKeyPrefix && key[|CacheKeyPrefix|..] == digest
  {
    CacheKeyPrefix + digest
  }

  /** Distinct digests give distinct keys, so blocks never share an entry unless their digests clash. */
  lemma ObjectCacheKeyInjective(d1: string, d2: string)
    requires ObjectCacheKey(d1) == ObjectCacheKey(d2)
    ensures d1 == d2
  {
    assert d1 == ObjectCacheKey(d1)[|CacheKeyPrefix|..];
  }

  /**
   * The filters `init` adds, in the order it adds them: the cache filter
   * when caching is on, then the lazy-load filter when lazy loading is on.
   * Both are added at priority 10, so the host runs them in this order.
   */
  function Registered(enableCache: bool, enableLazyLoad: bool): (fs: seq<Filter>)
    ensures (CacheFilter in fs) == enableCache && (LazyLoadFilter in fs) == enableLazyLoad
    ensures |fs| <= 2 && forall i, j :: 0 <= i < j < |fs| ==> fs[i] == CacheFilter && fs[j] == LazyLoadFilter
  {
    (if enableCache then [CacheFilter] else []) + (if enableLazyLoad then [LazyLoadFilter] else [])
  }

  /** One filter applied to the content so far, with the cache as it stands. */
  function Apply(f: Filter, content: string, cache: map<string, string>, key: string): (r: Lookup<string>)
    ensures f.LazyLoadFilter? ==> r.entries == cache
    ensures forall k :: k in cache ==> k in r.entries && r.entries[k] == cache[k]
    ensures r.entries.Keys <= cache.Keys + {key}
  {
    match f
    case CacheFilter => GetOrSet(cache, key, content)
    case LazyLoadFilter => Lookup(LazyLoad.LazyLoadBlock(content), cache)
  }

  /**
   * The filters `fs` applied in order to `content`: what `apply_filters`
   * returns, and the cache it leaves. A render adds at most the block's own
   * key to the cache.
   */
  function Chain(fs: seq<Filter>, content: string, cache: map<string, string>, key: string): (r: Lookup<string>)
    ensures r.entries.Keys <= cache.Keys + {key}
  {
    if fs == [] then Lookup(content, cache)
    else
      var r := Chain(fs[..|fs| - 1], content, cache, key);
      Apply(fs[|fs| - 1], r.value, r.entries, key)
  }

  /** Running the first `i + 1` filters is running the first `i`, then filter `i`. */
  lemma ChainStep(fs: seq<Filter>, i: nat, content: string, cache: map<string, string>, key: string)
    requires i < |fs|
    ensures var r := Chain(fs[..i], content, cache, key);
      Chain(fs[..i + 1], content, cache, key) == Apply(fs[i], r.value, r.entries, key)
  {
    assert fs[..i + 1][..i] == fs[..i];
  }

  /**
   * With both features on, the output is the lazy-load rewrite of whatever
   * the cache filter returns, and the cache holds that value before the
   * rewrite: on a miss the stored value is the block's own content.
   */
  lemma {:induction false} BothEnabled(content: string, cache: map<string, string>, key: string)
    ensures var r := Chain(Registered(true, true), content, cache, key);
      var c := GetOrSet(cache, key, content);
      r.value == LazyLoad.LazyLoadBlock(c.value) && r.entries == c.entries
      && r.entries[key] == c.value
      && (key !in cache ==> r.entries[key] == content && r.value == LazyLoad.LazyLoadBlock(content))
  {
    var fs := Registered(true, true);
    assert fs == [CacheFilter, LazyLoadFilter];
    assert fs[..1] == [CacheFilter];
    assert fs[..1][..0] == [];
    var c := GetOrSet(cache, key, content);
    assert Chain(fs[..1], content, cache, key) == c;
    assert Chain(fs, content, cache, key) == Lookup(LazyLoad.LazyLoadBlock(c.value), c.entries);
  }

  /** Removing the inserted markers from the output gives back what the cache filter returned. */
  lemma OutputRestoresToCached(content: string, cache: map<string, string>, key: string)
    ensures var r := Chain(Registered(true, true), content, cache, key);
      key in r.entries &&
      LazyLoadProofs.Restore(LazyLoad.ImgTag, LazyLoadProofs.Start,
        LazyLoadProofs.Restore(LazyLoad.IframeTag, LazyLoadProofs.Start, r.value)) == r.entries[key]
  {
    BothEnabled(content, cache, key);
    LazyLoadProofs.RestoreLazyLoadBlock(GetOrSet(cache, key, content).value);
  }

  /** A chain without the cache filter never touches the cache. */
  lemma {:induction false} CacheUntouched(fs: seq<Filter>, content: string, cache: map<string, string>, key: string)
    requires CacheFilter !in fs
    ensures Chain(fs, content, cache, key).entries == cache
  {
    if fs != [] {
      assert fs[|fs| - 1] in fs;
      assert forall f :: f in fs[..|fs| - 1] ==> f in fs;
      CacheUntouched(fs[..|fs| - 1], content, cache, key);
    }
  }

  /** A chain never removes or rebinds a key the cache already held. */
  lemma {:induction false} ChainKeepsEntries(fs: seq<Filter>, content: string, cache: map<string, string>, key: string)
    ensures var r := Chain(fs, content, cache, key);
      forall k :: k in cache ==> k in r.entries && r.entries[k] == cache[k]
  {
    if fs != [] {
      ChainKeepsEntries(fs[..|fs| - 1], content, cache, key);
    }
  }

  /**
   * With caching on, rendering the same block a second time gives the first
   * output and leaves the cache as the first render left it, whatever
   * content the second render is handed.
   */
  lemma {:induction false} SecondRenderRepeatsFirst(enableLazyLoad: bool, content1: string, content2: string, cache: map<string, string>, key: string)
    ensures var fs := Registered(true, enableLazyLoad);
      var r1 := Chain(fs, content1, cache, key);
      Chain(fs, content2, r1.entries, key) == r1
  {
    var fs := Registered(true, enableLazyLoad);
    var c := GetOrSet(cache, key, content1);
    SecondLookupHits(cache, key, content1, content2);
    assert fs[..1] == [CacheFilter];
    assert fs[..1][..0] == [];
    assert Chain(fs[..1], content1, cache, key) == c;
    assert Chain(fs[..1], content2, c.entries, key) == c;
  }

  /**
   * The plugin's server half. `objectCache` stands for the host object
   * cache (`wp_cache_get`/`wp_cache_set`), `renderBlockFilters` for the
   * callbacks the plugin has added to `render_block`; the two options are
   * read once, as `get_option` would return them.
   */
  class PerformanceOptimizer<Block> {
    var objectCache: map<string, string>
    var renderBlockFilters: seq<Filter>
    const enableCache: bool
    const enableLazyLoad: bool
    /** `md5(serialize($block))`. */
    const digest: Block -> string

    constructor (enableCache: bool, enableLazyLoad: bool, digest: Block -> string, objectCache: map<string, string>)
      ensures this.enableCache == enableCache && this.enableLazyLoad == enableLazyLoad && this.digest == digest
      ensures this.objectCache == objectCache && renderBlockFilters == []
    {
      this.enableCache := enableCache;
      this.enableLazyLoad := enableLazyLoad;
      this.digest := digest;
      this.objectCache := objectCache;
      renderBlockFilters := [];
    }

    /** Adds the cache filter when caching is on. */
    method SetupBlockCaching()
      modifies this`renderBlockFilters
      ensures renderBlockFilters == old(renderBlockFilters) + (if enableCache then [CacheFilter] else [])
    {
      if enableCache {
        renderBlockFilters := renderBlockFilters + [CacheFilter];
      }
    }

    /** Adds the lazy-load filter when lazy loading is on. */
    method SetupLazyLoading()
      modifies this`renderBlockFilters
      ensures renderBlockFilters == old(renderBlockFilters) + (if enableLazyLoad then [LazyLoadFilter] else [])
    {
      if enableLazyLoad {
        renderBlockFilters := renderBlockFilters + [LazyLoadFilter];
      }
    }

    /** Caching first, then lazy loading. */
    method Init()
      modifies this`renderBlockFilters
      ensures renderBlockFilters == old(renderBlockFilters) + Registered(enableCache, enableLazyLoad)
    {
      SetupBlockCaching();
      SetupLazyLoading();
    }

    /**
     * A hit returns the cached content and writes nothing; a miss stores
     * the content handed in and returns it. The key depends on the block
     * alone, never on the content.
     */
    method CacheBlockOutput(blockContent: string, block: Block) returns (out: string)
      modifies this`objectCache
      ensures var r := GetOrSet(old(objectCache), ObjectCacheKey(digest(block)), blockContent);
        out == r.value && objectCache == r.entries
    {
      var cacheKey := ObjectCacheKey(digest(block));
      if cacheKey in objectCache {
        return objectCache[cacheKey];
      }
      objectCache := objectCache[cacheKey := blockContent];
      return blockContent;
    }

    /** `apply_filters('render_block', ...)` over the plugin's own filters, in the order they were added. */
    method RenderBlock(blockContent: string, block: Block) returns (out: string)
      modifies this`objectCache
      ensures var r := Chain(renderBlockFilters, blockContent, old(objectCache), ObjectCacheKey(digest(block)));
        out == r.value && objectCache == r.entries
    {
      var key := ObjectCacheKey(digest(block));
      out := blockContent;
      var i := 0;
      while i < |renderBlockFilters|
        invariant 0 <= i <= |renderBlockFilters|
        invariant Chain(renderBlockFilters[..i], blockContent, old(objectCache), key) == Lookup(out, objectCache)
      {
        ChainStep(renderBlockFilters, i, blockContent, old(objectCache), key);
        if renderBlockFilters[i].CacheFilter? {
          out := CacheBlockOutput(out, block);
        } else {
          out := LazyLoad.LazyLoadBlock(out);
        }
        i := i + 1;
      }
      assert renderBlockFilters[..i] == renderBlockFilters;
    }
  }
}
