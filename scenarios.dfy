/**
  A client of the two tables, checked from their contracts alone: shorten a
  URL, resolve its slug, record two visits out of order, read the stats.
*/
module Scenarios {
  import opened Wrappers
  import opened SlugCodec
  import opened ShortlinkModels
  import opened ShortlinkService
  import opened Stats

  method ShortenVisitRead(longUrl: string, freshId: Id, created: Timestamp, t1: Timestamp, t2: Timestamp, serviceRoot: string)
    requires t1 < t2
  {
    var links := new ShortlinkTable();
    var stats := new StatsTable();
    var made := links.Create(longUrl, freshId, created);
    assert made == Some(Shortlink(freshId, longUrl, created));
    var link := made.value;

    FromSlugOfStored(links.rows, link.id);
    var resolved := FromSlug(links.rows, link.Slug());
    assert resolved == Some(link);
    assert link.ShortUrl(serviceRoot)[|serviceRoot| + 1..] == link.Slug();

    var before := GetShortlinkStats(stats.rows, link, serviceRoot);
    assert before.visits == 0 && before.lastVisit == None;

    // the later visit is processed first
    var ok2 := stats.RecordVisit(link.id, t2, links);
    var ok1 := stats.RecordVisit(link.id, t1, links);
    assert ok1 && ok2;
    TwoFirstVisits(map[], link.id, t1, t2);
    var after := GetShortlinkStats(stats.rows, link, serviceRoot);
    assert after.visits == 2 && after.lastVisit == Some(t2);
  }
}
