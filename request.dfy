/**
 * The URL `request` (export.php) sends: the API host, then the endpoint,
 * then every configuration entry appended through `add_query_args`.
 * The configuration is the ordered map the script loads once.
 */
module TrelloApi {
  import opened PhpText
  import opened QueryArgs

  const ApiBase: PhpString := "https://api.trello.com"

  /** The URL of a request to `endpoint` under configuration `config`. */
  function RequestUrl(endpoint: PhpString, config: Args): PhpString
  {
    WithQueryArgs(ApiBase + endpoint, config)
  }

  /**
   * For an endpoint built as `add_query_args(path, args)` from a path with no
   * `?`, `ParseUrl` reads back the path under the API host and the endpoint's
   * own arguments followed by every configuration entry (the key and the
   * token among them), in order.
   */
  lemma RequestCarriesConfig(path: PhpString, args: Args, config: Args)
    requires '?' !in path
    ensures ParseUrl(RequestUrl(WithQueryArgs(path, args), config)) == (ApiBase + path, args + config)
  {
    assert '?' !in ApiBase;
    PrefixWithQueryArgs(ApiBase, path, args);
    WithQueryArgsTwice(ApiBase + path, args, config);
    ParseUrlOfWithQueryArgs(ApiBase + path, args + config);
  }

  /** The URL building of `request`: the host, the endpoint, then the configuration. */
  method Request(endpoint: PhpString, config: Args) returns (url: PhpString)
    ensures url == RequestUrl(endpoint, config)
  {
    url := AddQueryArgs(ApiBase + endpoint, config);
  }
}
