/**
  `registerBaseUrl` from lib/mage.js: a table from image ids to image URLs may
  carry a `baseUrl` entry; when it does, that entry is removed and every other
  URL is rewritten, in place, to the base URL followed by the old URL.
*/
module Mage {

  /** The key under which a table carries its base URL. */
  const BaseUrl: string := "baseUrl"

  /** `idToImages`: the object `registerBaseUrl` rewrites in place. */
  class ImageTable {
    var urls: map<string, string>

    constructor(urls: map<string, string>)
      ensures this.urls == urls
    {
      this.urls := urls;
    }
  }

  /**
    Every URL of `urls` with `base` put in front of it. The expression that
    looks at the URL's last character and appends a slash to it computes a
    value nobody uses, so no slash is ever inserted.
  */
  function WithBase(urls: map<string, string>, base: string): (r: map<string, string>)
    ensures r.Keys == urls.Keys
  {
    map id | id in urls :: base + urls[id]
  }

  /**
    `registerBaseUrl(idToImages)`: returns the same table. Without a
    `baseUrl` entry nothing changes; with one, that entry is gone and every
    other URL is prefixed with it.
  */
  method RegisterBaseUrl(table: ImageTable) returns (r: ImageTable)
    modifies table
    ensures r == table
    ensures BaseUrl !in old(table.urls) ==> table.urls == old(table.urls)
    ensures BaseUrl in old(table.urls) ==>
      table.urls == WithBase(old(table.urls) - {BaseUrl}, old(table.urls)[BaseUrl])
  {
    if BaseUrl in table.urls {
      var baseUrl := table.urls[BaseUrl];
      table.urls := table.urls - {BaseUrl};
      ghost var start := table.urls;
      var pending := table.urls.Keys;
      while pending != {}
        invariant pending <= start.Keys
        invariant table.urls.Keys == start.Keys
        invariant forall id :: id in pending ==> table.urls[id] == start[id]
        invariant forall id :: id in start && id !in pending ==> table.urls[id] == baseUrl + start[id]
        decreases |pending|
      {
        var id :| id in pending;
        var img := table.urls[id];
        table.urls := table.urls[id := baseUrl + img];
        pending := pending - {id};
      }
      assert table.urls == WithBase(start, baseUrl);
    }
    r := table;
  }

  /** The rewritten URLs keep the old ones intact after the base: taking the base off again gives the table back. */
  lemma WithBaseStrips(urls: map<string, string>, base: string)
    ensures forall id :: id in urls ==> |WithBase(urls, base)[id]| == |base| + |urls[id]|
    ensures forall id :: id in urls ==> WithBase(urls, base)[id][..|base|] == base
    ensures forall id :: id in urls ==> WithBase(urls, base)[id][|base|..] == urls[id]
  {
    forall id | id in urls
      ensures WithBase(urls, base)[id][..|base|] == base
      ensures WithBase(urls, base)[id][|base|..] == urls[id]
    {
      var joined := base + urls[id];
      assert joined[..|base|] == base;
      assert joined[|base|..] == urls[id];
    }
  }

  /** A rewritten table has no `baseUrl` entry left, so registering it again changes nothing. */
  lemma RegisterOnce(urls: map<string, string>)
    requires BaseUrl in urls
    ensures BaseUrl !in WithBase(urls - {BaseUrl}, urls[BaseUrl])
  {
  }

  /** A base without a trailing slash is glued straight onto the image name. */
  lemma NoSlashInserted()
    ensures WithBase(map["logo" := "logo.png"], "http://cdn.example") == map["logo" := "http://cdn.examplelogo.png"]
  {
    var r := WithBase(map["logo" := "logo.png"], "http://cdn.example");
    assert "http://cdn.example" + "logo.png" == "http://cdn.examplelogo.png";
    assert r.Keys == {"logo"};
    assert r["logo"] == "http://cdn.examplelogo.png";
  }
}
