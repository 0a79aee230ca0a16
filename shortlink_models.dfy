/**
  The stored shortlink record, with its two derived values: the slug (the
  encoded id) and the short URL (the service root, a slash, the slug).
*/
module ShortlinkModels {
  import opened Wrappers
  import opened SlugCodec

  /** A point in time; only its order matters to the model. */
  type Timestamp = int

  /** A row of the shortlink table. `id` and `createdAt` are chosen once, when the record is made. */
  datatype Shortlink = Shortlink(id: Id, longUrl: string, createdAt: Timestamp)
  {
    /** The URL-friendly form of the id. It depends on the id alone, so every read gives the same string. */
    function Slug(): (r: string)
      ensures |r| == SlugLength
    {
      EncodeShape(id);
      Encode(id)
    }

    /** The address the shortlink is served at, under the configured service root. */
    function ShortUrl(serviceRoot: string): (r: string)
      ensures |r| == |serviceRoot| + 1 + SlugLength
      ensures r[..|serviceRoot|] == serviceRoot
      ensures r[|serviceRoot|] == '/'
      ensures r[|serviceRoot| + 1..] == Slug()
    {
      serviceRoot + "/" + Slug()
    }
  }

  /** A shortlink's slug decodes back to its id. */
  lemma SlugRoundTrip(s: Shortlink)
    ensures Decode(s.Slug()) == Some(s.id)
  {
    DecodeEncode(s.id);
  }

  /** Two shortlinks have the same slug exactly when they have the same id. */
  lemma SlugIdentifiesId(a: Shortlink, b: Shortlink)
    ensures a.Slug() == b.Slug() <==> a.id == b.id
  {
    if a.Slug() == b.Slug() {
      EncodeInjective(a.id, b.id);
    }
  }
}
