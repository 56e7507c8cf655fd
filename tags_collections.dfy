/**
 * `getTags` and `getCollections`: the single-column rows of the tag and
 * collection queries (each row given by its name) become the name lists
 * stored under "tags" and "project".
 */
module TagsCollections {
  import opened Common

  /**
   * The loop of `getTags`. Its guard `tags != ""` compares a list with a
   * string, which is never equal, so every row is appended.
   */
  method GetTags(tagRows: seq<string>) returns (r: map<string, Value>)
    ensures r.Keys == {"tags"}
    ensures r["tags"] == Names(tagRows)
  {
    var tags: seq<string> := [];
    for i := 0 to |tagRows|
      invariant tags == tagRows[..i]
    {
      tags := tags + [tagRows[i]];
    }
    assert tagRows[..|tagRows|] == tagRows;
    r := map["tags" := Names(tags)];
  }

  /** The list comprehension of `getCollections`. */
  function GetCollections(collectionRows: seq<string>): (r: map<string, Value>)
    ensures r.Keys == {"project"}
    ensures r["project"] == Names(collectionRows)
  {
    var collections := seq(|collectionRows|, i requires 0 <= i < |collectionRows| => collectionRows[i]);
    assert collections == collectionRows;
    map["project" := Names(collections)]
  }
}
