/**
  The shortlink table and the service operations over it: resolving a slug,
  creating a shortlink, and loading several shortlinks by id.
*/
module ShortlinkService {
  import opened Wrappers
  import opened SlugCodec
  import opened ShortlinkModels

  /** The shortlink table as a value: primary key to row. */
  type Links = map<Id, Shortlink>

  /** Every row is stored under its own id (the primary key is the `id` column). */
  ghost predicate KeyedById(links: Links)
  {
    forall id :: id in links ==> links[id].id == id
  }

  /** Looks a row of any table keyed by id up by primary key (a session `get`). */
  function Get<Row>(table: map<Id, Row>, id: Id): (r: Option<Row>)
    ensures r.Some? <==> id in table
    ensures r.Some? ==> r.value == table[id]
  {
    if id in table then Some(table[id]) else None
  }

  /**
    The shortlink a slug names. A slug that does not decode and a slug that
    decodes to an id with no row give the same answer, None.
  */
  function FromSlug(links: Links, slug: string): (r: Option<Shortlink>)
    requires KeyedById(links)
    ensures r.Some? <==> Decode(slug).Some? && Decode(slug).value in links
    ensures r.Some? ==> r.value == links[Decode(slug).value] && r.value.id == Decode(slug).value
  {
    match Decode(slug)
    case None => None
    case Some(id) => Get(links, id)
  }

  /** The stored shortlinks among `ids`, keyed by id; ids without a row are absent. */
  function GetByIds(links: Links, ids: seq<Id>): (r: Links)
    ensures forall id :: id in r <==> id in ids && id in links
    ensures forall id :: id in r ==> r[id] == links[id]
  {
    map id | id in ids && id in links :: links[id]
  }

  /** Resolving the slug of a stored shortlink gives back that shortlink. */
  lemma FromSlugOfStored(links: Links, id: Id)
    requires KeyedById(links) && id in links
    ensures FromSlug(links, links[id].Slug()) == Some(links[id])
  {
    SlugRoundTrip(links[id]);
  }

  /** An id with no row resolves to None even though its slug decodes. */
  lemma FromSlugOfUnknown(links: Links, id: Id)
    requires KeyedById(links) && id !in links
    ensures FromSlug(links, Encode(id)) == None
  {
    DecodeEncode(id);
  }

  /** A slug with a character outside the alphabet resolves to None. */
  lemma FromSlugOfMalformed(links: Links, slug: string, i: nat)
    requires KeyedById(links) && i < |slug| && DigitOf(slug[i]).None?
    ensures FromSlug(links, slug) == None
  {
    DecodeRejectsForeignChar(slug, i);
  }

  /**
    The shortlink table of the database. Rows are only ever added: there is
    no update and no delete.
  */
  class ShortlinkTable {
    var rows: Links

    ghost predicate Valid()
      reads this
    {
      KeyedById(rows)
    }

    constructor ()
      ensures Valid() && rows == map[]
    {
      rows := map[];
    }

    /**
      Stores a new shortlink for `longUrl`. `freshId` and `now` are what the
      record's default factories produce (a random UUID, the current time).
      There is no lookup by URL, so a URL that already has a shortlink gets
      another one. A generated id that is already a primary key makes the
      commit fail; the table is then unchanged.
    */
    method Create(longUrl: string, freshId: Id, now: Timestamp) returns (r: Option<Shortlink>)
      requires Valid()
      modifies this
      ensures Valid()
      ensures r.Some? <==> freshId !in old(rows)
      ensures r.Some? ==> r.value == Shortlink(freshId, longUrl, now)
      ensures r.Some? ==> rows == old(rows)[freshId := r.value]
      ensures r.Some? ==> forall id :: id in old(rows) ==> old(rows)[id].id != r.value.id
      ensures r.None? ==> rows == old(rows)
    {
      if freshId in rows {
        return None;
      }
      var link := Shortlink(freshId, longUrl, now);
      rows := rows[freshId := link];
      return Some(link);
    }
  }
}
