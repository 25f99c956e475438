/**
 * The translated-pages cache: one table row per (url digest, language),
 * holding the rendered markup of that URL in that language.
 *
 * The table is modelled as a map from its unique key (url_hash, language) to
 * the rest of the row, so the UNIQUE KEY constraint holds by construction.
 * The SHA-256 digest is an uninterpreted function given to the constructor;
 * the clock is a parameter of the write.
 */
module PagesCache {
  import opened Wrappers

  /** The unique key of a row: (url_hash, language). */
  datatype Key = Key(urlHash: string, language: string)

  /** The non-key columns of a row; `id` is the AUTO_INCREMENT primary key. */
  datatype Row = Row(id: nat, url: string, content: string, lastUpdated: string)

  type Table = map<Key, Row>

  /** SELECT content ... WHERE url_hash = h AND language = l LIMIT 1 */
  function Lookup(t: Table, k: Key): (r: Option<string>)
    ensures r.Some? <==> k in t
    ensures r.Some? ==> r.value == t[k].content
  {
    if k in t then Some(t[k].content) else None
  }

  /** The select-then-update-or-insert of set_cached_page, on the table's value.
      An existing row keeps its id and gets new content, timestamp and url;
      otherwise a row with id `freshId` is inserted. No other row changes. */
  function Upsert(t: Table, k: Key, url: string, content: string, now: string, freshId: nat): (t': Table)
    ensures t'.Keys == t.Keys + {k}
    ensures Lookup(t', k) == Some(content)
    ensures t'[k].url == url && t'[k].lastUpdated == now
    ensures k in t ==> t'[k].id == t[k].id
    ensures k !in t ==> t'[k].id == freshId
    ensures forall k' :: k' in t && k' != k ==> t'[k'] == t[k']
  {
    if k in t then t[k := t[k].(content := content, lastUpdated := now, url := url)]
    else t[k := Row(freshId, url, content, now)]
  }

  /** DELETE ... WHERE url_hash = h: rows of that digest go, in every language. */
  function DeleteDigest(t: Table, h: string): (t': Table)
    ensures forall k :: k in t' <==> k in t && k.urlHash != h
    ensures forall k :: k in t' ==> t'[k] == t[k]
    ensures forall l :: Lookup(t', Key(h, l)) == None
  {
    map k | k in t && k.urlHash != h :: t[k]
  }

  /** PHP truthiness of a string value: "" and "0" are falsy. */
  predicate Truthy(s: Option<string>) {
    s.Some? && s.value != "" && s.value != "0"
  }

  class TranslatedPagesCache {
    /** hash('sha256', url): uninterpreted here. */
    const hash: string -> string
    var rows: Table
    /** The next AUTO_INCREMENT value. */
    var nextId: nat

    /** Ids are positive (so `if ($existing)` sees every found row) and distinct. */
    ghost predicate Valid()
      reads this
    {
      && nextId >= 1
      && (forall k :: k in rows ==> 1 <= rows[k].id < nextId)
      && (forall k1, k2 :: k1 in rows && k2 in rows && k1 != k2 ==> rows[k1].id != rows[k2].id)
    }

    /** A freshly created, empty table. */
    constructor (hash: string -> string)
      ensures Valid()
      ensures this.hash == hash && rows == map[]
    {
      this.hash := hash;
      rows := map[];
      nextId := 1;
    }

    /** url_hash */
    function UrlHash(url: string): string
      reads this
    {
      hash(url)
    }

    /** get_cached_page: the content of the row for (hash(url), language), or null. */
    function GetCachedPage(url: string, language: string): (r: Option<string>)
      reads this
      ensures r.Some? <==> Key(hash(url), language) in rows
      ensures r.Some? ==> r.value == rows[Key(hash(url), language)].content
    {
      Lookup(rows, Key(UrlHash(url), language))
    }

    /** set_cached_page: upsert keyed on (hash(url), language). */
    method SetCachedPage(url: string, language: string, content: string, now: string)
      requires Valid()
      modifies this
      ensures Valid()
      ensures rows == Upsert(old(rows), Key(hash(url), language), url, content, now, old(nextId))
      ensures GetCachedPage(url, language) == Some(content)
    {
      var k := Key(UrlHash(url), language);
      var existing := Lookup(rows, k);
      // ids are positive (Valid), so a found row is always truthy for `if ( $existing )`
      if existing.Some? {
        var id := rows[k].id;
        rows := rows[k := rows[k].(content := content, lastUpdated := now, url := url)];
        assert rows[k].id == id;
      } else {
        rows := rows[k := Row(nextId, url, content, now)];
        nextId := nextId + 1;
      }
    }

    /** invalidate_url: delete every language's row for hash(url). */
    method InvalidateUrl(url: string)
      requires Valid()
      modifies this
      ensures Valid() && nextId == old(nextId)
      ensures rows == DeleteDigest(old(rows), hash(url))
      ensures forall l :: GetCachedPage(url, l) == None
    {
      rows := DeleteDigest(rows, UrlHash(url));
    }

    /** invalidate_post: `permalink` is what get_permalink returned (None for false). */
    method InvalidatePost(permalink: Option<string>)
      requires Valid()
      modifies this
      ensures Valid() && nextId == old(nextId)
      ensures !Truthy(permalink) ==> rows == old(rows)
      ensures Truthy(permalink) ==> rows == DeleteDigest(old(rows), hash(permalink.value))
    {
      if Truthy(permalink) {
        InvalidateUrl(permalink.value);
      }
    }
  }

  /** Every operation keys on the digest: two URLs with the same digest are
      indistinguishable to the cache, whatever their text. */
  lemma {:induction false} KeyedOnDigest(t: Table, h: (string -> string), u1: string, u2: string,
                                         lang: string, content: string, now: string, id: nat)
    requires h(u1) == h(u2)
    ensures Lookup(Upsert(t, Key(h(u1), lang), u1, content, now, id), Key(h(u2), lang)) == Some(content)
    ensures Lookup(DeleteDigest(t, h(u1)), Key(h(u2), lang)) == None
  {
  }

  /** A write to one (url, language) pair never disturbs a lookup of another pair. */
  lemma UpsertFrame(t: Table, k: Key, k': Key, url: string, content: string, now: string, id: nat)
    requires k != k'
    ensures Lookup(Upsert(t, k, url, content, now, id), k') == Lookup(t, k')
  {
  }

  /** Invalidation leaves rows of other digests alone. */
  lemma DeleteFrame(t: Table, h: string, k: Key)
    requires k.urlHash != h
    ensures Lookup(DeleteDigest(t, h), k) == Lookup(t, k)
  {
  }
}
