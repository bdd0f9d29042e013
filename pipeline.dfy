/**
 * The block's render callback `display_orcid_publications`
 * (orcid-publications.php, lines 48-134): check the ORCID iD, read the
 * cache or fetch and normalize the works, then render them.
 */
module Pipeline {
  import opened Wrappers
  import opened Works
  import opened Markup
  import opened Transients
  import opened OrcidApi

  const MissingIdMessage := "<p>Please provide an ORCID ID</p>"
  const FetchErrorMessage := "<p>Error fetching publications</p>"
  const NoPublicationsMessage := "<p>No publications found</p>"
  const CacheKeyPrefix := "orcid_pubs_"
  const HourInSeconds := 3600
  /** Twelve hours, in seconds. */
  const CacheTtl := 12 * HourInSeconds

  /** The `orcid` block attribute, or "" when it is absent. */
  function OrcidAttribute(attributes: map<string, string>): string {
    if "orcid" in attributes then attributes["orcid"] else ""
  }

  function CacheKey(orcid: string): string {
    CacheKeyPrefix + orcid
  }

  /** The publications a reply yields, when it is usable: a decoded object with a `group` field. */
  function ReplyGroups(reply: Reply): Option<seq<Group>> {
    match reply
    case Body(Some(WorksDocument(Some(groups)))) => Some(groups)
    case _ => None
  }

  /** What one call of the callback returns and does: its markup, the cache after it, the request it sent. */
  datatype Outcome = Outcome(html: string, cache: map<string, Transient>, request: Option<Request>)

  /**
   * The callback as a function of the block attributes, the cache before
   * the call and the reply the registry would give.
   */
  function Display(e: Escapers, attributes: map<string, string>, cache: map<string, Transient>, reply: Reply): Outcome {
    var orcid := OrcidAttribute(attributes);
    if PhpEmpty(orcid) then Outcome(MissingIdMessage, cache, None)
    else
      var key := CacheKey(orcid);
      if key in cache then Outcome(Serialize(DocumentTree(e, cache[key].value)), cache, None)
      else
        var request := Some(WorksRequest(orcid));
        if reply.TransportError? then Outcome(FetchErrorMessage, cache, request)
        else match ReplyGroups(reply)
          case None => Outcome(NoPublicationsMessage, cache, request)
          case Some(groups) =>
            var publications := NormalizeAll(groups);
            Outcome(Serialize(DocumentTree(e, publications)), cache[key := Transient(publications, CacheTtl)], request)
  }

  function RequestLog(r: Option<Request>): seq<Request> {
    if r.Some? then [r.value] else []
  }

  /** `display_orcid_publications` itself, over the shared transient store and the remote endpoint. */
  method DisplayOrcidPublications(e: Escapers, attributes: map<string, string>, store: TransientStore, api: Endpoint)
    returns (output: string)
    modifies store, api
    ensures var o := Display(e, attributes, old(store.entries), old(api.reply));
      && output == o.html
      && store.entries == o.cache
      && api.requests == old(api.requests) + RequestLog(o.request)
      && api.reply == old(api.reply)
  {
    var orcid := OrcidAttribute(attributes);
    if PhpEmpty(orcid) {
      return MissingIdMessage;
    }
    var cacheKey := CacheKey(orcid);
    var cached := store.Get(cacheKey);
    var publications: seq<Publication>;
    if cached.None? {
      var response := api.Get(WorksRequest(orcid));
      if response.TransportError? {
        return FetchErrorMessage;
      }
      if response.document.None? || response.document.value.group.None? {
        return NoPublicationsMessage;
      }
      publications := NormalizeGroups(response.document.value.group.value);
      assert publications == NormalizeAll(response.document.value.group.value);
      store.Set(cacheKey, publications, CacheTtl);
    } else {
      publications := cached.value;
    }
    output := RenderPublications(e, publications);
  }

  // ---------------------------------------------------------------------
  // Properties of the callback
  // ---------------------------------------------------------------------

  /** A missing or empty iD gives the fixed prompt and touches neither the cache nor the network. */
  lemma MissingIdShortCircuits(e: Escapers, attributes: map<string, string>, cache: map<string, Transient>, reply: Reply)
    requires PhpEmpty(OrcidAttribute(attributes))
    ensures Display(e, attributes, cache, reply) == Outcome(MissingIdMessage, cache, None)
  {
  }

  /** A live cache entry is rendered as it is, with no request sent and the cache unchanged. */
  lemma CacheHitNeverFetches(e: Escapers, attributes: map<string, string>, cache: map<string, Transient>, reply: Reply)
    requires !PhpEmpty(OrcidAttribute(attributes))
    requires CacheKey(OrcidAttribute(attributes)) in cache
    ensures var o := Display(e, attributes, cache, reply);
      && o.request == None
      && o.cache == cache
      && o.html == Serialize(DocumentTree(e, cache[CacheKey(OrcidAttribute(attributes))].value))
  {
  }

  /** On a miss exactly one request is sent, for the iD's works, whatever the reply. */
  lemma MissFetchesOnce(e: Escapers, attributes: map<string, string>, cache: map<string, Transient>, reply: Reply)
    requires !PhpEmpty(OrcidAttribute(attributes))
    requires CacheKey(OrcidAttribute(attributes)) !in cache
    ensures Display(e, attributes, cache, reply).request == Some(WorksRequest(OrcidAttribute(attributes)))
  {
  }

  /** A transport error gives the fixed error text and writes nothing to the cache. */
  lemma TransportErrorNotCached(e: Escapers, attributes: map<string, string>, cache: map<string, Transient>)
    requires !PhpEmpty(OrcidAttribute(attributes))
    requires CacheKey(OrcidAttribute(attributes)) !in cache
    ensures var o := Display(e, attributes, cache, TransportError);
      o.html == FetchErrorMessage && o.cache == cache
  {
  }

  /** A body that did not decode, or has no `group`, gives the fixed text and writes nothing to the cache. */
  lemma UnusableBodyNotCached(e: Escapers, attributes: map<string, string>, cache: map<string, Transient>, reply: Reply)
    requires !PhpEmpty(OrcidAttribute(attributes))
    requires CacheKey(OrcidAttribute(attributes)) !in cache
    requires reply.Body? && (reply.document.None? || reply.document.value.group.None?)
    ensures var o := Display(e, attributes, cache, reply);
      o.html == NoPublicationsMessage && o.cache == cache
  {
  }

  /**
   * A usable body is normalized, stored under the iD's key for twelve hours
   * with every other key left as it was, and rendered.
   */
  lemma UsableBodyCached(e: Escapers, attributes: map<string, string>, cache: map<string, Transient>, groups: seq<Group>)
    requires !PhpEmpty(OrcidAttribute(attributes))
    requires CacheKey(OrcidAttribute(attributes)) !in cache
    ensures var key, o := CacheKey(OrcidAttribute(attributes)), Display(e, attributes, cache, Body(Some(WorksDocument(Some(groups)))));
      && key in o.cache
      && o.cache[key] == Transient(NormalizeAll(groups), CacheTtl)
      && (forall k | k != key :: (k in o.cache <==> k in cache) && (k in cache ==> o.cache[k] == cache[k]))
      && o.html == Serialize(DocumentTree(e, o.cache[key].value))
  {
  }

  /**
   * Whenever a call renders publications, a second call for the same iD
   * sends no request, leaves the cache alone and renders the same markup,
   * whatever the registry would answer then.
   */
  lemma SecondCallServedFromCache(e: Escapers, attributes: map<string, string>, cache: map<string, Transient>,
                                  first: Reply, second: Reply)
    requires !PhpEmpty(OrcidAttribute(attributes))
    requires CacheKey(OrcidAttribute(attributes)) in cache || ReplyGroups(first).Some?
    ensures var o1 := Display(e, attributes, cache, first);
      Display(e, attributes, o1.cache, second) == Outcome(o1.html, o1.cache, None)
  {
  }

  /** A call sends at most one request, and only a call that sent one can change the cache. */
  lemma AtMostOneRequest(e: Escapers, attributes: map<string, string>, cache: map<string, Transient>, reply: Reply)
    ensures |RequestLog(Display(e, attributes, cache, reply).request)| <= 1
    ensures Display(e, attributes, cache, reply).cache != cache ==> Display(e, attributes, cache, reply).request.Some?
  {
  }
}
