/** parse_item: one raw issue object from the issues listing becomes one normalised record.
    Seven values are copied as they are under new names; the label objects become the list
    of their names. Any subscript that Python cannot perform makes parse_item raise. */
module ItemParser {
  import opened Outcomes
  import opened JsonValue

  /** The record parse_item returns (its keys url, title, body, author, created_at,
      closed_at, updated_at and labels). */
  datatype Issue = Issue(
    url: Json,
    title: Json,
    body: Json,
    author: Json,
    createdAt: Json,
    closedAt: Json,
    updatedAt: Json,
    labels: seq<Json>)

  /** The keys parse_item reads from the raw issue itself. */
  const RawKeys: set<string> :=
    {"html_url", "title", "body", "user", "created_at", "closed_at", "updated_at", "labels"}

  /** `label["name"]` succeeds. */
  predicate IsLabel(v: Json)
  {
    v.JObj? && "name" in v.fields
  }

  /** `for label in v: label["name"]` runs to the end. Iterating a non-empty string or
      object yields strings, and a string cannot be subscripted with "name"; an empty one
      yields nothing; numbers, booleans and None cannot be iterated. */
  predicate LabelsIterable(v: Json)
  {
    match v
    case JArr(xs) => forall i :: 0 <= i < |xs| ==> IsLabel(xs[i])
    case JStr(s) => s == []
    case JObj(m) => |m| == 0
    case _ => false
  }

  /** The names that loop collects, in the order of the raw list. */
  function LabelNames(v: Json): seq<Json>
    requires LabelsIterable(v)
  {
    if v.JArr? then seq(|v.items|, i requires 0 <= i < |v.items| => v.items[i].fields["name"])
    else []
  }

  /** parse_item returns instead of raising. */
  predicate Parseable(item: Json)
  {
    item.JObj? && RawKeys <= item.fields.Keys
    && Index(item.fields["user"], "login").Some?
    && LabelsIterable(item.fields["labels"])
  }

  /** What parse_item returns, stated field by field; None where it raises. */
  function Normalize(item: Json): Option<Issue>
  {
    if Parseable(item) then
      var f := item.fields;
      Some(Issue(f["html_url"], f["title"], f["body"], f["user"].fields["login"],
                 f["created_at"], f["closed_at"], f["updated_at"], LabelNames(f["labels"])))
    else None
  }

  /** parse_item: look up the seven values, then append the name of each label in turn. */
  method ParseItem(item: Json) returns (r: Option<Issue>)
    ensures r == Normalize(item)
  {
    var url := Index(item, "html_url");
    var title := Index(item, "title");
    var body := Index(item, "body");
    var user := Index(item, "user");
    var author := if user.Some? then Index(user.value, "login") else None;
    var created := Index(item, "created_at");
    var closed := Index(item, "closed_at");
    var updated := Index(item, "updated_at");
    if url.None? || title.None? || body.None? || author.None?
      || created.None? || closed.None? || updated.None?
    {
      return None;
    }
    var raw := Index(item, "labels");
    if raw.None? {
      return None;
    }
    var labels: seq<Json> := [];
    match raw.value {
      case JArr(xs) =>
        var i := 0;
        while i < |xs|
          invariant 0 <= i <= |xs|
          invariant forall k :: 0 <= k < i ==> IsLabel(xs[k])
          invariant |labels| == i
          invariant forall k :: 0 <= k < i ==> labels[k] == xs[k].fields["name"]
        {
          var name := Index(xs[i], "name");
          if name.None? {
            return None;
          }
          labels := labels + [name.value];
          i := i + 1;
        }
      case JStr(s) =>
        if s != [] {
          return None;
        }
      case JObj(m) =>
        if |m| != 0 {
          return None;
        }
      case _ =>
        return None;
    }
    assert labels == LabelNames(raw.value);
    r := Some(Issue(url.value, title.value, body.value, author.value,
                    created.value, closed.value, updated.value, labels));
  }
}
