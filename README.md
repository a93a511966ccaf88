# Gutenberg Performance Optimizer — a Dafny model

This project models the self-contained behaviour of the Gutenberg Performance
Optimizer WordPress plugin and proves properties of it. It covers the editor
script `src/index.js` and the plugin class in `gutenberg-performance-optimizer.php`.

- **Render batch queue** (`optimizeBlockRendering`, module `RenderQueue`).
  This is a class with the `renderQueue` sequence and the `isProcessing` flag.
  Each `resolve(block)` call is recorded in a `resolved` log.
  `requestAnimationFrame(processQueue)` becomes the boolean `rescheduled` result.
  Each queued entry carries a ticket that stands for its promise.
  The class invariant says the log followed by the queue is exactly the requests in call order.
  So every request is resolved at most once, with its own block, in FIFO order.
- **Editor render cache** (`withBlockCaching`, module `BlockCache`).
  It is a get-or-set over the `blockCache` map, gated by `cacheEnabled`.
  The rendered element is an opaque value passed in.
  The serialized attributes (`JSON.stringify`) are passed in as a string.
- **Viewport test** (`isBlockInViewport`, module `Viewport`).
  This is integer arithmetic.
  `window.scrollY` and `window.innerHeight` are integer parameters.
- **Lazy-load rewrite** (`lazy_load_block`, modules `LazyLoad` and `LazyLoadProofs`).
  The two `preg_replace` passes are modelled as a left-to-right scanner over `seq<char>`.
  The model keeps PCRE's behaviour for `/<img(.*?)>/` and `/<iframe(.*?)>/`.
  Matches are leftmost and do not overlap.
  The lazy group ends at the first `>`.
  `.` does not match a line feed, so a line feed before that `>` fails the match.
  The scanner is proved equal to a declarative description: a marker goes in front of every `>` that closes a tag, and nothing else changes.
  The proof runs through a small streaming automaton.
  Further results: the length grows by 15 per rewritten tag, deleting the markers gives back the input, and the two passes do not interfere.
- **Server pipeline** (`init`, `setup_block_caching`, `setup_lazy_loading`, `cache_block_output`; module `ServerPipeline`).
  The host object cache is a map field.
  `md5(serialize($block))` is a digest function fixed when the optimizer is made.
  The `render_block` filter list is a sequence field that `Init` appends to.
  `RenderBlock` runs those filters in order, as `apply_filters` does.
  With both options on, the output is lazy(cache(content)), and the cache holds the markup before the rewrite.

`queueBlock` drains synchronously after every push.
So with a batch size of 1 or more the queue is empty between calls, and no multi-tick draining of a burst happens.
There is also no separate idle/draining state: the flag is raised and lowered within one `processQueue` call.

## Model

| member | source | states |
|---|---|---|
| RenderQueue.EffectiveBatchSize | src/index.js:36 | `batchSize \|\| 10` for a numeric setting: an absent or zero setting gives 10, any other value is kept, so the result is never zero |
| RenderQueue.Splice | src/index.js:42 | `splice(0, n)` splits the queue into head and untouched suffix; the head has n entries when 0 <= n <= length, none when n <= 0, all when n >= length |
| RenderQueue.Renderer.constructor | src/index.js:33-36 | starts with empty queue and log, flag down, effective batch size from the setting |
| RenderQueue.Renderer.ProcessQueue | src/index.js:38-54 | an empty queue changes nothing and schedules nothing; otherwise the spliced head is appended to the resolved log in order, the suffix stays queued, the flag is down again, FIFO exactly-once ordering is kept, and a further run is scheduled iff entries remain |
| RenderQueue.Renderer.QueueBlock | src/index.js:57-61 | pushes at the tail and drains; with batch size >= 1 the new request is resolved in the same call, with its own block, and the queue ends empty; with a negative batch size nothing is resolved and a rerun is always scheduled |
| BlockCache.GetOrSet | src/index.js:76-86 | afterwards the key is bound to the returned value; a miss stores and returns the rendered value; existing bindings are never removed or overwritten; no other key is added |
| BlockCache.SecondLookupHits | src/index.js:76-78 | a second lookup of the same key returns the first value and changes nothing, whatever value it offers |
| BlockCache.EditorCacheKey | src/index.js:74 | the key is the client id, a `-`, then the serialized attributes, each recoverable from its position |
| BlockCache.EditorCacheKeyInjective | src/index.js:74 | for client ids of one length, equal keys mean equal client id and equal serialized attributes |
| BlockCache.EditorCache.constructor | src/index.js:69 | the block cache starts empty |
| BlockCache.EditorCache.Render | src/index.js:72-87 | with caching on, a get-or-set under `clientId-attributes`; with caching off, the rendered value is returned and the map is untouched |
| Viewport.IsBlockInViewport | src/index.js:98-109 | for a non-negative viewport height: visible iff the block meets the viewport and does not stick out of it at both ends; never visible for a negative height |
| Viewport.VisibilityIgnoresBlockCount | src/index.js:98-108 | the answer does not depend on the block count |
| Viewport.OverlapsViewport | src/index.js:105-108 | corrected test: true iff some row of the block lies in the viewport |
| Viewport.CoveringBlockHidden | src/index.js:105-108 | a block that covers a 50-pixel viewport is reported invisible although it overlaps it |
| Viewport.VisibleBlocksOverlap | src/index.js:105-108 | every block reported visible overlaps the viewport |
| Viewport.TallViewportAgrees | src/index.js:105-108 | for a viewport at least one block high, the test equals the overlap test |
| LazyLoad.Contains | gutenberg-performance-optimizer.php:108 | the `strpos` guard: true iff the tag occurs at some position |
| LazyLoad.FindClose | gutenberg-performance-optimizer.php:109 | the lazy `(.*?)>` ends at the first `>` with no line feed before it, or fails when a line feed or the end comes first |
| LazyLoad.MatchAt | gutenberg-performance-optimizer.php:109 | a match at p needs the tag at p and its closing `>` after the tag, with no `>` or line feed between |
| LazyLoad.ReplaceFrom | gutenberg-performance-optimizer.php:109 | the `preg_replace` scan from position i; never shorter than the text it reads; its full meaning is stated by LazyLoadProofs.ReplaceIsReference |
| LazyLoad.Replace | gutenberg-performance-optimizer.php:109 | one pass over the whole text, which only ever inserts; see LazyLoadProofs.ReplaceIsReference, ReplaceLength and RestoreReplace for what it inserts |
| LazyLoad.LazyLoadBlock | gutenberg-performance-optimizer.php:106-117 | the filter: never shortens the markup, and returns markup with neither tag unchanged; see LazyLoadProofs.LazyLoadBlockIsReference and RestoreLazyLoadBlock |
| LazyLoadProofs.TagsWellFormed | gutenberg-performance-optimizer.php:109-113 | both tags start with `<` and hold no `<`, `>`, space or line feed after it |
| LazyLoadProofs.ReplaceIsReference | gutenberg-performance-optimizer.php:109 | one pass equals the declarative rewrite: a marker in front of each `>` that closes a tag occurrence, every character copied in order |
| LazyLoadProofs.ClosesTagIff | gutenberg-performance-optimizer.php:109 | a `>` closes a tag iff it is where `(.*?)>` ends for some occurrence of the tag |
| LazyLoadProofs.ReplaceLength | gutenberg-performance-optimizer.php:109 | output length = input length + 15 × number of rewritten tags |
| LazyLoadProofs.ReplaceFromUntouched | gutenberg-performance-optimizer.php:108-110 | text without the tag passes through a pass unchanged |
| LazyLoadProofs.MarkerCharacters | gutenberg-performance-optimizer.php:109 | the inserted text is 15 characters, starts with a space, and holds no `<`, `>` or line feed |
| LazyLoadProofs.RestoreReplace | gutenberg-performance-optimizer.php:109 | deleting the inserted markers after one pass gives back the input |
| LazyLoadProofs.GuardsRedundant | gutenberg-performance-optimizer.php:108-114 | the `strpos` guards do not change the result: the filter is the img pass followed by the iframe pass |
| LazyLoadProofs.NoTagsUnchanged | gutenberg-performance-optimizer.php:108-116 | markup with neither `<img` nor `<iframe` is returned unchanged |
| LazyLoadProofs.LazyLoadBlockIsReference | gutenberg-performance-optimizer.php:106-117 | the filter marks each `>` of the original markup once if it closes an `<img` and once more if it closes an `<iframe`; the first pass neither creates nor hides tags for the second |
| LazyLoadProofs.RestoreLazyLoadBlock | gutenberg-performance-optimizer.php:106-117 | undoing the iframe pass and then the img pass gives back the block content |
| LazyLoadProofs.SingleTag | gutenberg-performance-optimizer.php:109 | a lone tag with any attribute text free of `>` and line feed gets the marker right before its `>` |
| LazyLoadProofs.SelfClosingTag | gutenberg-performance-optimizer.php:109 | `<img/>` becomes `<img/ loading="lazy">` |
| LazyLoadProofs.LongerTagName | gutenberg-performance-optimizer.php:109 | `<imgx>` is rewritten too |
| LazyLoadProofs.ExistingAttributeDuplicated | gutenberg-performance-optimizer.php:109 | an existing `loading="lazy"` gets a second copy |
| LazyLoadProofs.UnmatchedFrom | gutenberg-performance-optimizer.php:109 | where no match starts at any position, a pass copies the text unchanged |
| LazyLoadProofs.LineFeedStopsMatch | gutenberg-performance-optimizer.php:109 | any tag occurrence followed by a line feed before any `>` is not matched; the scan copies its `<` and moves on |
| LazyLoadProofs.NoCloseStopsMatch | gutenberg-performance-optimizer.php:109 | any tag occurrence with no `>` after it is not matched; the scan copies its `<` and moves on |
| LazyLoadProofs.LineFeedInTag | gutenberg-performance-optimizer.php:109 | example: `<img\n>` comes back unchanged |
| LazyLoadProofs.UnterminatedTag | gutenberg-performance-optimizer.php:109 | example: `<img src=x` comes back unchanged |
| ServerPipeline.ObjectCacheKey | gutenberg-performance-optimizer.php:91 | the key is `gpo_block_` followed by the digest of the block |
| ServerPipeline.ObjectCacheKeyInjective | gutenberg-performance-optimizer.php:91 | distinct digests give distinct keys |
| ServerPipeline.Registered | gutenberg-performance-optimizer.php:77-87 | each filter is present iff its option is on, and the cache filter comes before the lazy-load filter |
| ServerPipeline.Apply | gutenberg-performance-optimizer.php:89-117 | the lazy-load filter leaves the cache alone; neither filter drops or rebinds an existing cache entry |
| ServerPipeline.Chain | gutenberg-performance-optimizer.php:77-87 | the `render_block` chain over the added filters, in order; a render adds at most the block's own key to the cache; see BothEnabled, CacheUntouched, ChainKeepsEntries and SecondRenderRepeatsFirst |
| ServerPipeline.BothEnabled | gutenberg-performance-optimizer.php:41-45 | with both options on, output = lazy(cache(content)), the cache holds the pre-rewrite value, and on a miss that value is the block content itself |
| ServerPipeline.OutputRestoresToCached | gutenberg-performance-optimizer.php:89-117 | deleting the markers from the final output gives back exactly what the cache holds for the block |
| ServerPipeline.CacheUntouched | gutenberg-performance-optimizer.php:77-81 | without the cache filter a render never changes the cache |
| ServerPipeline.ChainKeepsEntries | gutenberg-performance-optimizer.php:89-104 | a render never removes or rebinds an existing cache entry |
| ServerPipeline.SecondRenderRepeatsFirst | gutenberg-performance-optimizer.php:91-98 | with caching on, a second render of the same block returns the first output and leaves the cache as it was, whatever content it is given |
| ServerPipeline.PerformanceOptimizer.constructor | gutenberg-performance-optimizer.php:28-39 | options and digest as given, host cache as given, no filters added yet |
| ServerPipeline.PerformanceOptimizer.SetupBlockCaching | gutenberg-performance-optimizer.php:77-81 | appends the cache filter iff caching is on |
| ServerPipeline.PerformanceOptimizer.SetupLazyLoading | gutenberg-performance-optimizer.php:83-87 | appends the lazy-load filter iff lazy loading is on |
| ServerPipeline.PerformanceOptimizer.Init | gutenberg-performance-optimizer.php:41-45 | appends exactly the registered filters, cache filter first |
| ServerPipeline.PerformanceOptimizer.CacheBlockOutput | gutenberg-performance-optimizer.php:89-104 | a get-or-set keyed by the block alone: a hit returns the cached content and writes nothing, a miss stores and returns the given content |
| ServerPipeline.PerformanceOptimizer.RenderBlock | gutenberg-performance-optimizer.php:79-85 | runs the added filters in order; output and cache are those of the filter chain |

## Left out

- React higher-order components, JSX rendering and `addFilter` registration (src/index.js:7-30, 91-95) are framework glue; the rendered element is an opaque value.
- `debounce`, `optimizeEditor`, `subscribe` and the `DOMContentLoaded` hook (src/index.js:112-150) are timer and event-loop code; `dispatch` is not even imported there.
- `requestAnimationFrame` and the Promise machinery are reduced to the `rescheduled` result and the `resolved` log; the rescheduled run itself is a later `ProcessQueue` call.
- `window.innerHeight` and `window.scrollY` are integer parameters; fractional scroll positions are not modelled.
- `md5`, `serialize` and `JSON.stringify` are not modelled: the digest is an abstract function and the serialized attributes a string.
- The 3600-second lifetime, the empty cache group and eviction belong to the host object cache; the plugin has no clock.
- The singleton, `add_action`, asset enqueueing, `register_settings`, `get_option` and `wp_localize_script` (gutenberg-performance-optimizer.php:15-75, 120-124) are plugin boilerplate; the option values are constructor parameters.
- The rest of the `render_block` chain (other plugins' filters, the `$block` argument other than its digest) is not modelled.
- PCRE's backtracking limits, and `preg_replace` returning null on error, are not modelled; the rewrite always succeeds.
- Cache invalidation, capacity limits and eviction are not in the code and are not modelled.
- The settings are modelled as the numbers and booleans saved in the options, not as the strings `wp_localize_script` hands the script (gutenberg-performance-optimizer.php:64-68). A saved `"0"` batch size reaches the script as the truthy string `"0"`, so `"0" || 10` stays `"0"`, `splice(0, "0")` removes nothing, and the queue behaves as with a negative batch size in the model. Likewise a saved `"0"` for caching is false in PHP (gutenberg-performance-optimizer.php:78) but true in the script (src/index.js:76).
- ServerPipeline.PerformanceOptimizer.CacheBlockOutput: `wp_cache_get` returning `false` for a stored value is not modelled; the plugin only stores strings.
- BlockCache.EditorCache.Render: the rendered value is an input even on a hit, where the code does not render; rendering has no other effect in the model.

## Findings

| source | as written | input that shows it | evidently intended | confidence | as-written member | corrected member |
|---|---|---|---|---|---|---|
| src/index.js:105-108 | visible only if the block's top or bottom edge lies inside the viewport | block 0 (rows 0-100), `scrollY` 10, `innerHeight` 50: neither edge is on screen, yet the block fills the viewport | visible iff some row of the block lies in the viewport | medium, not executed (only viewports lower than one block are affected) | Viewport.CoveringBlockHidden | Viewport.OverlapsViewport |
