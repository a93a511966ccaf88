/**
 * The render caches. Both sides of the plugin do the same get-or-set over a
 * string-keyed store: the editor script over its `blockCache` Map
 * (`withBlockCaching`), the server over the host object cache
 * (`cache_block_output`). Entries are only ever added: nothing is removed
 * or overwritten.
 */
module BlockCache {

  /** What a get-or-set returns, and the store it leaves behind. */
  datatype Lookup<V> = Lookup(value: V, entries: map<string, V>)

  /**
   * Return the value stored under `key`; on a miss, store `computed` under it
   * first. Afterwards `key` is bound to the returned value, every earlier
   * binding is kept as it was, and no other key is added.
   */
  function GetOrSet<V>(entries: map<string, V>, key: string, computed: V): (r: Lookup<V>)
    ensures key in r.entries && r.value == r.entries[key]
    ensures r.entries.Keys == entries.Keys + {key}
    ensures forall k :: k in entries ==> r.entries[k] == entries[k]
    ensures key !in entries ==> r.value == computed
  {
    if key in entries then Lookup(entries[key], entries) else Lookup(computed, entries[key := computed])
  }

  /** A second lookup of the same key returns the first one's value, whatever value it offers, and stores nothing. */
  lemma SecondLookupHits<V>(entries: map<string, V>, key: string, first: V, second: V)
    ensures var r1 := GetOrSet(entries, key, first);
      GetOrSet(r1.entries, key, second) == r1
  {
  }

  /** The editor's cache key: `${clientId}-${JSON.stringify(attributes)}`, with the serialized attributes passed in. */
  function EditorCacheKey(clientId: string, attributesJson: string): (key: string)
    ensures |key| == |clientId| + 1 + |attributesJson|
    ensures key[..|clientId|] == clientId && key[|clientId|] == '-' && key[|clientId| + 1..] == attributesJson
  {
    clientId + "-" + attributesJson
  }

  /**
   * Client ids of one length (the editor's are UUIDs) give distinct keys to
   * distinct (client id, attributes) pairs.
   */
  lemma EditorCacheKeyInjective(id1: string, json1: string, id2: string, json2: string)
    requires |id1| == |id2|
    requires EditorCacheKey(id1, json1) == EditorCacheKey(id2, json2)
    ensures id1 == id2 && json1 == json2
  {
  }

  /**
   * The block cache of `withBlockCaching`. Rendering is left opaque: the
   * value `<BlockListBlock {...props} />` would produce is passed in.
   */
  class EditorCache<V> {
    var blockCache: map<string, V>
    const cacheEnabled: bool

    constructor (cacheEnabled: bool)
      ensures blockCache == map[] && this.cacheEnabled == cacheEnabled
    {
      blockCache := map[];
      this.cacheEnabled := cacheEnabled;
    }

    /**
     * One render of a block: with caching on, a get-or-set under the block's
     * key; with caching off, the freshly rendered value, and the map is not
     * touched.
     */
    method Render(clientId: string, attributesJson: string, rendered: V) returns (out: V)
      modifies this`blockCache
      ensures cacheEnabled ==>
        var r := GetOrSet(old(blockCache), EditorCacheKey(clientId, attributesJson), rendered);
        out == r.value && blockCache == r.entries
      ensures !cacheEnabled ==> out == rendered && blockCache == old(blockCache)
    {
      var cacheKey := EditorCacheKey(clientId, attributesJson);
      if cacheEnabled && cacheKey in blockCache {
        return blockCache[cacheKey];
      }
      var renderedBlock := rendered;
      if cacheEnabled {
        blockCache := blockCache[cacheKey := renderedBlock];
      }
      return renderedBlock;
    }
  }
}
