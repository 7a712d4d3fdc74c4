/**
 * The process-wide memory cache in front of the outbound existence checks
 * (`IsHttpRequestSuccessCached`).
 *
 * An entry holds the success flag of one earlier GET and the time it
 * expires. A live entry is returned as it is, `false` included, with no
 * outbound call; otherwise exactly one GET is made and its success flag is
 * stored under the key for the given time-to-live.
 *
 * The outbound GET is the parameter `get`: `get(url)` is whether the
 * response status was a success status at the time of the call.
 */
module ValidationCache {

  datatype Entry = Entry(ok: bool, expiresAt: nat)

  /** The cache holds an unexpired entry for key at time now. */
  predicate IsLive(entries: map<string, Entry>, key: string, now: nat) {
    key in entries && now < entries[key].expiresAt
  }

  /** One call of the helper: what it returns, the cache afterwards, and the GETs it issued, in order. */
  datatype Consulted = Consulted(result: bool, entries: map<string, Entry>, fetched: seq<string>)

  function Consult(entries: map<string, Entry>, key: string, url: string, ttl: nat, now: nat,
                   get: string -> bool): (c: Consulted)
    ensures |c.fetched| <= 1 && (c.fetched == [] <==> IsLive(entries, key, now))
    ensures key in c.entries && c.entries[key].ok == c.result
    ensures ttl > 0 ==> IsLive(c.entries, key, now)
  {
    if IsLive(entries, key, now) then Consulted(entries[key].ok, entries, [])
    else
      var ok := get(url);
      Consulted(ok, entries[key := Entry(ok, now + ttl)], [url])
  }

  /** A hit returns the stored flag, even a stale `false`, whatever the remote would say now, and calls nothing. */
  lemma HitMakesNoCall(entries: map<string, Entry>, key: string, url: string, ttl: nat, now: nat,
                       get: string -> bool)
    requires IsLive(entries, key, now)
    ensures var c := Consult(entries, key, url, ttl, now, get);
      c.result == entries[key].ok && c.fetched == [] && c.entries == entries
  {
  }

  /** A miss makes exactly one GET, to url, stores its flag for ttl, and touches no other key. */
  lemma MissMakesOneCall(entries: map<string, Entry>, key: string, url: string, ttl: nat, now: nat,
                         get: string -> bool)
    requires !IsLive(entries, key, now)
    ensures var c := Consult(entries, key, url, ttl, now, get);
      && c.fetched == [url]
      && c.result == get(url)
      && key in c.entries && c.entries[key] == Entry(c.result, now + ttl)
      && forall k :: k != key ==> (k in c.entries <==> k in entries) && (k in entries ==> c.entries[k] == entries[k])
  {
  }

  /**
   * Asking again for the same key before the time-to-live runs out gives the
   * same answer with no outbound call, even if the remote has changed.
   */
  lemma RepeatWithinTtl(entries: map<string, Entry>, key: string, url: string, ttl: nat, now: nat,
                        get: string -> bool, later: nat, url': string, ttl': nat, get': string -> bool)
    requires ttl > 0 && now <= later
    requires IsLive(entries, key, now) ==> later < entries[key].expiresAt
    requires !IsLive(entries, key, now) ==> later < now + ttl
    ensures var first := Consult(entries, key, url, ttl, now, get);
      var second := Consult(first.entries, key, url', ttl', later, get');
      second.result == first.result && second.fetched == [] && second.entries == first.entries
  {
  }

  /** The shared cache, and the outbound GETs it has issued so far. */
  class MemoryCache {
    var entries: map<string, Entry>
    var fetched: seq<string>

    constructor ()
      ensures entries == map[] && fetched == []
    {
      entries := map[];
      fetched := [];
    }

    /** Number of outbound GETs issued so far. */
    function OutboundCalls(): nat
      reads this
    {
      |fetched|
    }

    method IsHttpRequestSuccessCached(ttl: nat, key: string, url: string, now: nat, get: string -> bool)
      returns (result: bool)
      modifies this
      ensures var c := Consult(old(entries), key, url, ttl, now, get);
        result == c.result && entries == c.entries && fetched == old(fetched) + c.fetched
      ensures IsLive(old(entries), key, now) ==>
        result == old(entries)[key].ok && OutboundCalls() == old(OutboundCalls())
      ensures !IsLive(old(entries), key, now) ==>
        result == get(url) && OutboundCalls() == old(OutboundCalls()) + 1 && fetched[|fetched| - 1] == url
    {
      if key in entries && now < entries[key].expiresAt {
        result := entries[key].ok;
      } else {
        result := get(url);
        fetched := fetched + [url];
        entries := entries[key := Entry(result, now + ttl)];
      }
    }
  }
}
