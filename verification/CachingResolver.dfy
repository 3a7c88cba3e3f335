/** The caching resolver and the bust listener over the in-process store, one call at a
    time. The printed form of a link and its revival are parameters. */
module CachingResolver {
  import opened Options
  import CachePort
  import LinkCache
  import MemoryCacheStore

  /** JSON.stringify of a link, and JSON.parse with the dates revived. */
  datatype Codec = Codec(stringify: LinkCache.Link -> string, revive: string -> LinkCache.Link)

  ghost predicate RoundTrips(codec: Codec) {
    forall link: LinkCache.Link :: codec.revive(codec.stringify(link)) == link
  }

  /** The inner resolver, as the database stands. */
  type Origin = LinkCache.Address -> Option<LinkCache.Link>

  /** Links are stored on DNS names, under slugs of any shape. */
  ghost predicate PlainOrigin(origin: Origin) {
    forall a: LinkCache.Address :: origin(a).Some? ==> LinkCache.PlainHost(a)
  }

  /** Every cached link is the origin's own, for the address its key spells. */
  ghost predicate Coherent(model: CachePort.State, codec: Codec, origin: Origin) {
    forall a: LinkCache.Address :: LinkCache.PlainHost(a) && LinkCache.KeyOf(a) in model ==>
      && origin(a).Some?
      && model[LinkCache.KeyOf(a)].value == CachePort.Text(codec.stringify(origin(a).value))
  }

  /** The two origins differ at most at one address. */
  ghost predicate SameBut(before: Origin, after: Origin, changed: LinkCache.Address) {
    forall a: LinkCache.Address :: a != changed ==> before(a) == after(a)
  }

  lemma SweepTwice(model: CachePort.State, early: int, late: int)
    requires early <= late
    ensures CachePort.Swept(CachePort.Swept(model, early), late) == CachePort.Swept(model, late)
  {
  }

  lemma StoredIsCoherent(model: CachePort.State, codec: Codec, origin: Origin, a: LinkCache.Address, held: CachePort.Held)
    requires Coherent(model, codec, origin) && PlainOrigin(origin) && origin(a).Some?
    requires held.value == CachePort.Text(codec.stringify(origin(a).value))
    ensures Coherent(model[LinkCache.KeyOf(a) := held], codec, origin)
  {
    forall b: LinkCache.Address | LinkCache.PlainHost(b) && LinkCache.KeyOf(b) == LinkCache.KeyOf(a)
      ensures b == a
    {
      LinkCache.KeySpellsAddress(a, b);
      LinkCache.KeySpellsAddress(b, b);
    }
  }

  class Resolver {
    const cache: MemoryCacheStore.Store
    const ttlSeconds: int
    const codec: Codec

    constructor (cache: MemoryCacheStore.Store, ttlSeconds: int, codec: Codec)
      ensures this.cache == cache && this.ttlSeconds == ttlSeconds && this.codec == codec
    {
      this.cache, this.ttlSeconds, this.codec := cache, ttlSeconds, codec;
    }

    /** The caller gets the origin's answer for the link it named, unless its host holds a
        bar and the cache has the link its key spells; the origin is asked exactly when the
        cache holds nothing alive under the key, and only a hit is stored, for the ttl from
        the moment of storing. */
    method Resolve(host: string, slug: string, origin: Origin, lookAt: int, stampAt: int)
      returns (link: Option<LinkCache.Link>, asked: bool)
      requires cache.Valid() && cache.clock <= lookAt <= stampAt
      requires RoundTrips(codec) && PlainOrigin(origin) && Coherent(cache.model, codec, origin)
      modifies cache
      ensures cache.Valid() && Coherent(cache.model, codec, origin)
      ensures asked || LinkCache.PlainHost(LinkCache.Normalised(host, slug)) ==>
        link == origin(LinkCache.Normalised(host, slug))
      ensures !asked ==> link.Some? && link == origin(LinkCache.Spelled(LinkCache.Normalised(host, slug)))
      ensures asked <==> LinkCache.LinkCacheKey(host, slug) !in CachePort.Swept(old(cache.model), lookAt)
      ensures asked && link.Some? ==>
        cache.model == CachePort.Swept(old(cache.model), stampAt)[LinkCache.LinkCacheKey(host, slug) :=
          CachePort.Held(CachePort.Text(codec.stringify(link.value)), Some(stampAt + ttlSeconds * 1000))]
      ensures !asked || link.None? ==> cache.model == CachePort.Swept(old(cache.model), lookAt)
    {
      hide LinkCache.Normalised, LinkCache.KeyOf, LinkCache.Spelled;
      var address := LinkCache.Normalised(host, slug);
      var key := LinkCache.LinkCacheKey(host, slug);
      LinkCache.SpelledSharesKey(address);
      if LinkCache.PlainHost(address) {
        LinkCache.KeySpellsAddress(address, address);
      }
      var cached := cache.Get(key, lookAt, stampAt);
      if cached.Some? {
        return Some(codec.revive(cached.value)), false;
      }
      link := origin(address);
      if link.Some? {
        ghost var before := cache.model;
        cache.Set(key, codec.stringify(link.value), Some(ttlSeconds), stampAt, stampAt);
        SweepTwice(old(cache.model), lookAt, stampAt);
        StoredIsCoherent(CachePort.Swept(before, stampAt), codec, origin, address, cache.model[key]);
      }
      return link, true;
    }

    /** A change of one link followed by its bust leaves every cached link the origin's
        own again; a notification without a host or a slug evicts nothing. */
    method Bust(host: string, slug: string, ghost before: Origin, ghost after: Origin, ghost now: int)
      requires cache.Valid() && cache.clock <= now
      requires Coherent(cache.model, codec, before) && SameBut(before, after, LinkCache.Normalised(host, slug))
      modifies cache
      ensures cache.Valid()
      ensures host != "" && slug != "" ==>
        && cache.model == CachePort.Swept(old(cache.model), now) - {LinkCache.LinkCacheKey(host, slug)}
        && Coherent(cache.model, codec, after)
      ensures host == "" || slug == "" ==> cache.model == old(cache.model)
    {
      hide LinkCache.Normalised, LinkCache.KeyOf;
      if host == "" || slug == "" {
        return;
      }
      cache.Del(LinkCache.LinkCacheKey(host, slug), now, now);
    }
  }
}
