/**
 * The URL formatter and the caching half of the resource loader
 * (BlreBasicGetUrlFormatter and BlreBaseLoader in RescueEditor/js/IO/io.js).
 *
 * Identifiers and resources are strings; the empty string is the falsy
 * one. The configured base URL (what the `blre-get-config-value` handler
 * answers for the loader's configuration key) and the network
 * (`BlreAjax.get`) are parameters: `fetch(url)` is the resource the GET
 * request resolves with, or None when it fails.
 */
module IO {
  import opened Wrappers
  import opened Strings

  /** A string is truthy in JavaScript unless it is empty. */
  predicate Truthy(s: string)
  {
    s != ""
  }

  // ---------------------------------------------------------------------
  // BlreBasicGetUrlFormatter
  // ---------------------------------------------------------------------

  const IdPattern: string := "%id%"

  /** The pattern the constructor stores as written: `a_idPattern | '%id%'` goes to a local, `_idPattern` is always `%id%`. */
  function PatternAsWritten(pattern: Option<string>): (p: string)
    ensures p == IdPattern
  {
    IdPattern
  }

  /** The pattern the constructor documents: the argument when one is given, `%id%` otherwise (`a_idPattern || '%id%'`). */
  function PatternOf(pattern: Option<string>): (p: string)
    ensures pattern.Some? && Truthy(pattern.value) ==> p == pattern.value
    ensures pattern.None? || !Truthy(pattern.value) ==> p == IdPattern
  {
    if pattern.Some? && Truthy(pattern.value) then pattern.value else IdPattern
  }

  /** A custom pattern is dropped as written and kept as documented; without one both use `%id%`. */
  lemma PatternFinding()
    ensures PatternAsWritten(Some("{id}")) != "{id}" && PatternOf(Some("{id}")) == "{id}"
    ensures PatternAsWritten(None) == PatternOf(None) == IdPattern
  {
  }

  class UrlFormatter {
    /** `_idPattern`. */
    const idPattern: string

    /** The pattern is the one given, `%id%` by default. */
    constructor(pattern: Option<string>)
      ensures idPattern == PatternOf(pattern)
    {
      idPattern := PatternOf(pattern);
    }

    /**
     * format(url, {id}): with a truthy id the leftmost occurrence of the
     * pattern is replaced by the id, whose `$` patterns `replace` expands;
     * otherwise the URL comes back as given.
     */
    function Format(url: string, id: Option<string>): (r: string)
      ensures id.None? || !Truthy(id.value) || !Occurs(url, idPattern) ==> r == url
      ensures id.Some? && Truthy(id.value) && Occurs(url, idPattern) ==>
                exists i :: OccursAt(url, idPattern, i) && (forall k :: 0 <= k < i ==> !OccursAt(url, idPattern, k)) &&
                            r == ReplacedAt(url, idPattern, id.value, i)
    {
      if id.Some? && Truthy(id.value) then ReplaceFirst(url, idPattern, id.value) else url
    }
  }

  /** A URL that is just the pattern becomes the expanded id: the id itself when it holds no `$` pattern. */
  lemma FormatPatternOnly(f: UrlFormatter, id: string)
    requires Truthy(id)
    ensures f.Format(f.idPattern, Some(id)) == Substitution(id, f.idPattern, "", "")
    ensures Plain(id) ==> f.Format(f.idPattern, Some(id)) == id
  {
    assert OccursAt(f.idPattern, f.idPattern, 0);
    assert f.idPattern[..0] == "" && f.idPattern[|f.idPattern|..] == "";
    if Plain(id) {
      SubstitutionPlain(id, f.idPattern, "", "");
    }
  }

  /** An id that is `$&` writes the matched pattern back, so `%id%` formats to itself. */
  lemma FormatMatchedPattern(f: UrlFormatter)
    requires f.idPattern == IdPattern
    ensures f.Format(IdPattern, Some("$&")) == IdPattern
  {
    FormatPatternOnly(f, "$&");
    SubstitutionPatterns(IdPattern, "", "");
  }

  /**
   * A URL that ends with its only pattern loses the pattern: the expanded id
   * takes its place, so `http://my-url.com/%id%` with the id `my-res`
   * becomes `http://my-url.com/my-res`.
   */
  lemma FormatAtEnd(f: UrlFormatter, pre: string, id: string)
    requires Truthy(id) && f.idPattern == IdPattern && '%' !in pre
    ensures f.Format(pre + IdPattern, Some(id)) == pre + Substitution(id, IdPattern, pre, "")
    ensures Plain(id) ==> f.Format(pre + IdPattern, Some(id)) == pre + id
  {
    var url := pre + IdPattern;
    assert url[|pre|..|pre| + 4] == IdPattern;
    assert OccursAt(url, IdPattern, |pre|);
    forall k | 0 <= k < |pre|
      ensures !OccursAt(url, IdPattern, k)
    {
      assert url[k] == pre[k];
    }
    var r := f.Format(url, Some(id));
    var i :| OccursAt(url, IdPattern, i) && (forall k :: 0 <= k < i ==> !OccursAt(url, IdPattern, k))
             && r == ReplacedAt(url, IdPattern, id, i);
    assert i == |pre|;
    assert url[..i] == pre;
    assert url[i + |IdPattern|..] == "";
    if Plain(id) {
      SubstitutionPlain(id, IdPattern, pre, "");
    }
  }

  // ---------------------------------------------------------------------
  // BlreBaseLoader: the cache
  // ---------------------------------------------------------------------

  /** What the synchronous part of `get(id)` leaves behind: a cache hit, or a GET request for the key it will cache under. */
  datatype Pending = Ready(id: string, resource: string) | Requested(key: string, url: string)

  /** `a_id || 'default'`. */
  function HelperKey(id: string): (k: string)
    ensures Truthy(k) && (Truthy(id) ==> k == id) && (!Truthy(id) ==> k == "default")
  {
    if Truthy(id) then id else "default"
  }

  /** The synchronous part of get: a truthy cached resource is a hit; anything else is a request. */
  function Start(cache: map<string, string>, f: UrlFormatter, base: string, id: string): (p: Pending)
    ensures p.Ready? <==> id in cache && Truthy(cache[id])
    ensures p.Ready? ==> p == Ready(id, cache[id])
    ensures p.Requested? ==> p.key == HelperKey(id) && p.url == f.Format(base, Some(HelperKey(id)))
  {
    if id in cache && Truthy(cache[id]) then Ready(id, cache[id])
    else
      var key := HelperKey(id);
      Requested(key, f.Format(base, Some(key)))
  }

  /** What the gets of getMany's loop leave behind, id by id, all against the same cache. */
  function Starts(cache: map<string, string>, f: UrlFormatter, base: string, ids: seq<string>): (ps: seq<Pending>)
    ensures |ps| == |ids| && forall k :: 0 <= k < |ids| ==> ps[k] == Start(cache, f, base, ids[k])
  {
    if ids == [] then [] else Starts(cache, f, base, ids[..|ids| - 1]) + [Start(cache, f, base, ids[|ids| - 1])]
  }

  /** What the promise of `p` resolves with: `[id, resource]`, or undefined when the request fails. */
  function Outcome(p: Pending, fetch: string -> Option<string>): (r: Option<(string, string)>)
  {
    match p
    case Ready(id, res) => Some((id, res))
    case Requested(key, url) => if fetch(url).Some? then Some((key, fetch(url).value)) else None
  }

  /** The cache after the requests among `ps` have resolved: each success is stored under its key. */
  function Resolved(cache: map<string, string>, ps: seq<Pending>, fetch: string -> Option<string>): (c: map<string, string>)
  {
    if ps == [] then cache
    else
      var c := Resolved(cache, ps[..|ps| - 1], fetch);
      var p := ps[|ps| - 1];
      if p.Requested? && fetch(p.url).Some? then c[p.key := fetch(p.url).value] else c
  }

  /** The answers of the promises of `ps`, in order. */
  function Outcomes(ps: seq<Pending>, fetch: string -> Option<string>): (r: seq<Option<(string, string)>>)
    ensures |r| == |ps| && forall k :: 0 <= k < |ps| ==> r[k] == Outcome(ps[k], fetch)
  {
    if ps == [] then [] else Outcomes(ps[..|ps| - 1], fetch) + [Outcome(ps[|ps| - 1], fetch)]
  }

  /** The resources object getMany answers: a failed request makes it throw; later pairs overwrite earlier ones. */
  function Assemble(rs: seq<Option<(string, string)>>): (r: Option<map<string, string>>)
    ensures r.Some? <==> forall k :: 0 <= k < |rs| ==> rs[k].Some?
  {
    if rs == [] then Some(map[])
    else
      var init := Assemble(rs[..|rs| - 1]);
      var last := rs[|rs| - 1];
      if init.None? || last.None? then None else Some(init.value[last.value.0 := last.value.1])
  }

  /** The resource the last pair of `rs` called `id` carries. */
  function LastFor(rs: seq<(string, string)>, id: string): (r: Option<string>)
  {
    if rs == [] then None
    else if rs[|rs| - 1].0 == id then Some(rs[|rs| - 1].1)
    else LastFor(rs[..|rs| - 1], id)
  }

  /** Drops the options of a list in which every one is present. */
  function Present(rs: seq<Option<(string, string)>>): (r: seq<(string, string)>)
    requires forall k :: 0 <= k < |rs| ==> rs[k].Some?
    ensures |r| == |rs| && forall k :: 0 <= k < |rs| ==> r[k] == rs[k].value
  {
    if rs == [] then [] else Present(rs[..|rs| - 1]) + [rs[|rs| - 1].value]
  }

  /** In the assembled object each id holds the resource of its last pair, and no other id is present. */
  lemma {:induction false} AssembleLastWins(rs: seq<Option<(string, string)>>, id: string)
    requires forall k :: 0 <= k < |rs| ==> rs[k].Some?
    ensures var m := Assemble(rs).value; var last := LastFor(Present(rs), id);
            (id in m <==> last.Some?) && (last.Some? ==> m[id] == last.value)
  {
    if rs != [] {
      var init := rs[..|rs| - 1];
      AssembleLastWins(init, id);
      assert Present(rs)[..|rs| - 1] == Present(init);
    }
  }

  /** A pair is kept under its id unless a later pair has the same id. */
  lemma {:induction false} LastForFinds(rs: seq<(string, string)>, i: nat)
    requires i < |rs| && forall k :: i < k < |rs| ==> rs[k].0 != rs[i].0
    ensures LastFor(rs, rs[i].0) == Some(rs[i].1)
  {
    if i < |rs| - 1 {
      LastForFinds(rs[..|rs| - 1], i);
    }
  }

  class Loader {
    /** `_cache`: resources by the key they were loaded under. */
    var cache: map<string, string>
    const urlFormatter: UrlFormatter

    constructor()
      ensures cache == map[] && urlFormatter.idPattern == IdPattern
    {
      cache := map[];
      urlFormatter := new UrlFormatter(None);
    }

    /** _getFromCache: the cached resource, or undefined. */
    function FromCache(id: string): (r: Option<string>)
      reads this
      ensures r.Some? <==> id in cache
      ensures r.Some? ==> r.value == cache[id]
    {
      if id in cache then Some(cache[id]) else None
    }

    /** _setToCache: afterwards the key reads back the resource and every other key reads as before. */
    method SetToCache(id: string, resource: string)
      modifies this
      ensures cache == old(cache)[id := resource]
      ensures FromCache(id) == Some(resource)
      ensures forall k :: k != id ==> FromCache(k) == old(FromCache(k))
    {
      cache := cache[id := resource];
    }

    /** The synchronous part of get and _getHelper: look in the cache, or format the URL and send the request. */
    method Begin(base: string, id: string) returns (p: Pending)
      ensures p == Start(cache, urlFormatter, base, id)
    {
      var resource := FromCache(id);
      if resource.Some? && Truthy(resource.value) {
        return Ready(id, resource.value);
      }
      var key := if Truthy(id) then id else "default";
      var url := urlFormatter.Format(base, Some(key));
      return Requested(key, url);
    }

    /** The promise callbacks: a fetched resource is cached under its key and answered with it. */
    method Finish(p: Pending, fetch: string -> Option<string>) returns (r: Option<(string, string)>)
      modifies this
      ensures r == Outcome(p, fetch)
      ensures cache == Resolved(old(cache), [p], fetch)
    {
      if p.Ready? {
        return Some((p.id, p.resource));
      }
      var resource := fetch(p.url);
      if resource.None? {
        return None;
      }
      SetToCache(p.key, resource.value);
      return Some((p.key, resource.value));
    }

    /**
     * get(id): a truthy cached resource is answered without a request;
     * otherwise the resource is fetched, cached under `id || 'default'`
     * and answered under that key.
     */
    method Get(base: string, id: string, fetch: string -> Option<string>) returns (r: Option<(string, string)>)
      modifies this
      ensures var p := Start(old(cache), urlFormatter, base, id);
              r == Outcome(p, fetch) && cache == Resolved(old(cache), [p], fetch)
    {
      var p := Begin(base, id);
      r := Finish(p, fetch);
    }

    /**
     * getMany(ids): every get starts (reading the cache as it was at the
     * call) before any request resolves; the requests then resolve and
     * cache their resources, and the answers are assembled into one
     * object, later ids overwriting earlier ones. No ids: an empty object.
     */
    method GetMany(base: string, ids: seq<string>, fetch: string -> Option<string>) returns (r: Option<map<string, string>>)
      modifies this
      ensures ids == [] ==> r == Some(map[]) && cache == old(cache)
      ensures var ps := Starts(old(cache), urlFormatter, base, ids);
              r == Assemble(Outcomes(ps, fetch)) && cache == Resolved(old(cache), ps, fetch)
    {
      if |ids| == 0 {
        return Some(map[]);
      }
      var ps := StartAll(base, ids);
      var data := FinishAll(ps, fetch);
      r := Resources(data);
    }

    /** The loop of getMany: `promises.push(this.get(id))` for each id, before any promise resolves. */
    method StartAll(base: string, ids: seq<string>) returns (ps: seq<Pending>)
      ensures ps == Starts(cache, urlFormatter, base, ids)
    {
      ps := [];
      for i := 0 to |ids|
        invariant ps == Starts(cache, urlFormatter, base, ids[..i])
      {
        var p := Begin(base, ids[i]);
        assert ids[..i + 1][..i] == ids[..i];
        ps := ps + [p];
      }
      assert ids[..|ids|] == ids;
    }

    /** Promise.all: every request resolves, caching what it fetched, and the answers are kept in order. */
    method FinishAll(ps: seq<Pending>, fetch: string -> Option<string>) returns (data: seq<Option<(string, string)>>)
      modifies this
      ensures data == Outcomes(ps, fetch) && cache == Resolved(old(cache), ps, fetch)
    {
      data := [];
      for i := 0 to |ps|
        invariant data == Outcomes(ps[..i], fetch)
        invariant cache == Resolved(old(cache), ps[..i], fetch)
      {
        var d := Finish(ps[i], fetch);
        assert ps[..i + 1][..i] == ps[..i];
        data := data + [d];
      }
      assert ps[..|ps|] == ps;
    }
  }

  /** The `then` of getMany: `resources[id] = res` for each answer; an undefined answer throws. */
  method Resources(data: seq<Option<(string, string)>>) returns (r: Option<map<string, string>>)
    ensures r == Assemble(data)
  {
    r := Some(map[]);
    for i := 0 to |data|
      invariant r == Assemble(data[..i])
    {
      assert data[..i + 1][..i] == data[..i];
      if r.Some? && data[i].Some? {
        r := Some(r.value[data[i].value.0 := data[i].value.1]);
      } else {
        r := None;
      }
    }
    assert data[..|data|] == data;
  }

  /** A cache hit sends no request: its answer and the cache after it do not depend on the network. */
  lemma HitSendsNoRequest(cache: map<string, string>, f: UrlFormatter, base: string, id: string,
                          fetch1: string -> Option<string>, fetch2: string -> Option<string>)
    requires id in cache && Truthy(cache[id])
    ensures var p := Start(cache, f, base, id);
            && Outcome(p, fetch1) == Outcome(p, fetch2) == Some((id, cache[id]))
            && Resolved(cache, [p], fetch1) == cache
  {
    var p := Start(cache, f, base, id);
    assert [p][..0] == [];
  }

  /** Requests only ever cache under truthy keys. */
  lemma {:induction false} ResolvedKeys(cache: map<string, string>, ps: seq<Pending>, fetch: string -> Option<string>, key: string)
    requires forall k :: 0 <= k < |ps| ==> ps[k].Requested? ==> Truthy(ps[k].key)
    requires key in Resolved(cache, ps, fetch) && !Truthy(key)
    ensures key in cache
  {
    if ps != [] {
      var init := ps[..|ps| - 1];
      assert forall k :: 0 <= k < |init| ==> init[k] == ps[k];
      ResolvedKeys(cache, init, fetch, key);
    }
  }

  /**
   * A get with the empty id never hits the cache: get looks the empty id up,
   * but _getHelper stores the resource under `default`. However many gets a
   * getMany has resolved, an empty id sends a new request.
   */
  lemma EmptyIdAlwaysRequests(cache: map<string, string>, f: UrlFormatter, base: string, ids: seq<string>, fetch: string -> Option<string>)
    requires "" !in cache
    ensures var c := Resolved(cache, Starts(cache, f, base, ids), fetch);
            "" !in c && Start(c, f, base, "") == Requested("default", f.Format(base, Some("default")))
  {
    var ps := Starts(cache, f, base, ids);
    var c := Resolved(cache, ps, fetch);
    if "" in c {
      ResolvedKeys(cache, ps, fetch, "");
    }
  }

  /** A resource fetched under a key is a cache hit for that key afterwards when it is truthy. */
  lemma FetchedThenHit(cache: map<string, string>, f: UrlFormatter, base: string, id: string, fetch: string -> Option<string>)
    ensures var p := Start(cache, f, base, id); var c := Resolved(cache, [p], fetch); var o := Outcome(p, fetch);
            o.Some? && Truthy(o.value.1) ==> Start(c, f, base, o.value.0) == Ready(o.value.0, o.value.1)
  {
    var p := Start(cache, f, base, id);
    assert [p][..0] == [];
  }
}
