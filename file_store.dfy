/**
 * The public-URL cache for files in the `accounts` storage bucket: a dictionary
 * from path to URL, filled on the first lookup of each path.
 */
module FileStore {
  import opened Js

  class FileStore {
    /** `_urls`. */
    var urls: map<string, string>

    constructor ()
      ensures urls == map[]
    {
      urls := map[];
    }

    /** Whether a lookup may answer from the cache: the cached URL must be truthy. */
    predicate Cached(path: string)
      reads this
    {
      path in urls && urls[path] != ""
    }

    /**
     * `getUrlAsync`: a truthy cached URL is returned as it is; otherwise the bucket's
     * public URL (`publicUrl`, given by the storage client) is computed and cached.
     */
    method GetUrlAsync(path: string, publicUrl: string -> string) returns (url: string)
      modifies this
      ensures old(Cached(path)) ==> url == old(urls)[path] && urls == old(urls)
      ensures !old(Cached(path)) ==> url == publicUrl(path) && urls == old(urls)[path := url]
      ensures GetCachedUrl(path) == Some(url)
      ensures forall p :: p != path ==> (p in urls <==> p in old(urls)) && (p in urls ==> urls[p] == old(urls)[p])
    {
      if path in urls && urls[path] != "" {
        return urls[path];
      }
      url := publicUrl(path);
      urls := urls[path := url];
    }

    /** `getCachedUrl`: the cached URL, or `undefined`; it reads the cache and changes nothing. */
    function GetCachedUrl(path: string): (r: Option<string>)
      reads this
      ensures r.Some? <==> path in urls
      ensures r.Some? ==> r.value == urls[path]
    {
      if path in urls then Some(urls[path]) else None
    }
  }

  /**
   * Two lookups of one path give the same URL when the first is non-empty, and the
   * second one answers from the cache.
   */
  method LookupTwice(store: FileStore, path: string, publicUrl: string -> string) returns (first: string, second: string)
    modifies store
    ensures first != "" ==> second == first
    ensures first != "" ==> store.urls == old(store.urls)[path := first] || store.urls == old(store.urls)
  {
    first := store.GetUrlAsync(path, publicUrl);
    second := store.GetUrlAsync(path, publicUrl);
  }

  /** A cached empty URL does not count: the lookup computes the URL again. */
  method EmptyEntryIsRecomputed(store: FileStore, path: string, publicUrl: string -> string) returns (url: string)
    requires path in store.urls && store.urls[path] == ""
    modifies store
    ensures url == publicUrl(path)
  {
    url := store.GetUrlAsync(path, publicUrl);
  }
}
