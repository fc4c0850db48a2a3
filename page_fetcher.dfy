/** fetch_page: the argument guard, the request for one page of the issues listing, and
    the mapping of the decoded page through parse_item with every error swallowed. */
module PageFetcher {
  import opened Outcomes
  import opened JsonValue
  import opened ItemParser
  import Decimal

  /** The command-line arguments fetch_page reads. */
  datatype Args = Args(repository: string, months: int, token: Option<string>)

  /** The page a request asks for. Its URL text is Url(target); different pages have
      different URLs (PageUrlsDistinct), so the request keeps the parts. */
  datatype Target = Target(repository: string, page: nat)

  datatype Request = Request(target: Target, headers: map<string, string>)

  /** What one request brings back once the transport has answered and the body has been
      decoded as JSON. */
  datatype Response =
    | HttpError(code: int, reason: string)
    | TransportError
    | MalformedBody
    | Decoded(doc: Json)

  const ApiRoot: string := "https://api.github.com/repos/"
  const PageQuery: string := "/issues?page="
  const StateAll: string := "&state=all"
  const AcceptV3: string := "application/vnd.github.v3+json"

  /** The guard of fetch_page: repository and months are both truthy, so months == 0
      counts as missing. */
  predicate ArgsPresent(args: Args)
  {
    args.repository != [] && args.months != 0
  }

  /** The token is truthy: given and not empty. */
  predicate HasToken(token: Option<string>)
  {
    token.Some? && token.value != []
  }

  /** The request headers: always the versioned Accept header; Authorization exactly when
      a token is given, carrying "token " and the token. */
  function Headers(token: Option<string>): (h: map<string, string>)
    ensures h.Keys == if HasToken(token) then {"Accept", "Authorization"} else {"Accept"}
    ensures h["Accept"] == AcceptV3
    ensures HasToken(token) ==> h["Authorization"] == "token " + token.value
  {
    var base := map["Accept" := AcceptV3];
    if HasToken(token) then base["Authorization" := "token " + token.value] else base
  }

  /** The URL of page p of the repository's issues, open and closed. */
  function PageUrl(repository: string, p: nat): string
  {
    ApiRoot + repository + PageQuery + Decimal.Show(p) + StateAll
  }

  /** The URL text of a request target. */
  function Url(target: Target): string
  {
    PageUrl(target.repository, target.page)
  }

  /** The page number that a page URL of the repository asks for; None for any other text. */
  function PageNumberOf(repository: string, url: string): Option<nat>
  {
    var head := ApiRoot + repository + PageQuery;
    if |head| + |StateAll| <= |url| && url[..|head|] == head && url[|url| - |StateAll|..] == StateAll
    then Decimal.Parse(url[|head|..|url| - |StateAll|])
    else None
  }

  /** The URL of page p carries p: reading the page number back gives p. */
  lemma PageUrlRoundTrip(repository: string, p: nat)
    ensures PageNumberOf(repository, PageUrl(repository, p)) == Some(p)
  {
    var head := ApiRoot + repository + PageQuery;
    var url := PageUrl(repository, p);
    assert url == head + Decimal.Show(p) + StateAll;
    assert url[..|head|] == head;
    assert url[|url| - |StateAll|..] == StateAll;
    assert url[|head|..|url| - |StateAll|] == Decimal.Show(p);
    Decimal.ParseShow(p);
  }

  /** Different pages are asked for with different URLs, so no two requests of a run coincide. */
  lemma PageUrlsDistinct(repository: string, p: nat, q: nat)
    requires p != q
    ensures PageUrl(repository, p) != PageUrl(repository, q)
  {
    PageUrlRoundTrip(repository, p);
    PageUrlRoundTrip(repository, q);
  }

  /** The request fetch_page builds for page p once its guard has passed. */
  function PageRequest(args: Args, p: nat): Request
  {
    Request(Target(args.repository, p), Headers(args.token))
  }

  /** The request for page p asks for page p of the repository. */
  lemma PageRequestShape(args: Args, p: nat)
    ensures PageNumberOf(args.repository, Url(PageRequest(args, p).target)) == Some(p)
  {
    PageUrlRoundTrip(args.repository, p);
  }

  /** The list fetch_page's loop holds when it stops: the items mapped through parse_item,
      up to but not including the first one that raises. */
  function ParsedPrefix(items: seq<Json>): seq<Issue>
  {
    if items == [] then []
    else match Normalize(items[0])
      case None => []
      case Some(issue) => [issue] + ParsedPrefix(items[1..])
  }

  /** The parsed prefix is the longest run of items from the start that parse_item accepts,
      each mapped in place: entry i is item i normalised, and the item just after the prefix,
      if any, is the one that raised. */
  lemma {:induction false} ParsedPrefixSpec(items: seq<Json>)
    ensures |ParsedPrefix(items)| <= |items|
    ensures forall i :: 0 <= i < |ParsedPrefix(items)| ==> Normalize(items[i]) == Some(ParsedPrefix(items)[i])
    ensures |ParsedPrefix(items)| < |items| ==> Normalize(items[|ParsedPrefix(items)|]).None?
  {
    if items != [] && Normalize(items[0]).Some? {
      ParsedPrefixSpec(items[1..]);
    }
  }

  /** On a page where every item parses, the result is exactly the page mapped through
      parse_item: same length, same order. */
  lemma ParsedPrefixWholePage(items: seq<Json>)
    requires forall i :: 0 <= i < |items| ==> Normalize(items[i]).Some?
    ensures |ParsedPrefix(items)| == |items|
    ensures forall i :: 0 <= i < |items| ==> ParsedPrefix(items)[i] == Normalize(items[i]).value
  {
    ParsedPrefixSpec(items);
  }

  /** The issues one response yields. Transport, HTTP and decoding failures yield nothing;
      so does a decoded value that is not a list, since iterating it either fails or
      yields strings, on which parse_item raises at once. */
  function PageItems(response: Response): seq<Issue>
  {
    match response
    case Decoded(JArr(items)) => ParsedPrefix(items)
    case _ => []
  }

  /** fetch_page: the guard, then one request, then the items of the decoded page appended
      one by one until the end or until parse_item raises. The result is never an error
      except for the guard. */
  method FetchPage(args: Args, p: nat, server: Request -> Response) returns (r: Result<seq<Issue>, Fatal>)
    ensures r.Err? <==> !ArgsPresent(args)
    ensures r.Err? ==> r.error == MissingArguments
    ensures r.Ok? ==> r.value == PageItems(server(PageRequest(args, p)))
  {
    if !ArgsPresent(args) {
      return Err(MissingArguments);
    }
    var bugs: seq<Issue> := [];
    var request := PageRequest(args, p);
    var response := server(request);
    if response.Decoded? && response.doc.JArr? {
      var items := response.doc.items;
      var i := 0;
      assert items[i..] == items;
      while i < |items|
        invariant 0 <= i <= |items|
        invariant ParsedPrefix(items) == bugs + ParsedPrefix(items[i..])
      {
        var issue := ParseItem(items[i]);
        if issue.None? {
          break;
        }
        assert items[i..][1..] == items[i + 1..];
        bugs := bugs + [issue.value];
        i := i + 1;
      }
    }
    return Ok(bugs);
  }
}
