/**
 * The per-request decision of dfwp_filter_feeds and dfwp_redirect_feed: pass a
 * request through, redirect it permanently to the page the feed belongs to, or
 * turn it into a 404 with an HTML content type.
 */
module Feeds {
  import opened Wrappers
  import opened Options
  import opened FeedPattern

  /** How a request ends as far as the plugin is concerned. A redirect ends the request (exit). */
  datatype Outcome = PassThrough | Redirect301(location: string) | NotFound(contentType: string)

  /** What the host says about the current request; each field is the answer of a host call. */
  datatype Request = Request(
    feedInGet: bool,                         // isset($_GET['feed'])
    urlWithoutFeedArg: string,               // remove_query_arg('feed')
    canonicalRedirect: Option<string>,       // where redirect_canonical() redirected, if it did
    isSingular: bool,                        // is_singular()
    isCommentFeed: bool,                     // is_comment_feed()
    feedPermastruct: Option<string>,         // $wp_rewrite->get_feed_permastruct(); None for false
    commentFeedPermastruct: Option<string>,  // $wp_rewrite->get_comment_feed_permastruct(); None for false
    requestedUrl: string,                    // esc_url(scheme . HTTP_HOST . REQUEST_URI)
    htmlType: string,                        // get_option('html_type')
    blogCharset: string                      // get_option('blog_charset')
  )

  /** The parts of $wp_query the plugin reads and writes. */
  datatype QueryState = QueryState(isFeed: bool, is404: bool, feedVar: string)

  /** The result of one step: its outcome and the query state it leaves. */
  datatype Step = Step(outcome: Outcome, query: QueryState)

  /** $wp_query */
  class WpQuery {
    var isFeed: bool
    var is404: bool
    var feedVar: string

    constructor (q: QueryState)
      ensures State() == q
    {
      isFeed, is404, feedVar := q.isFeed, q.is404, q.feedVar;
    }

    function State(): QueryState
      reads this
    {
      QueryState(isFeed, is404, feedVar)
    }
  }

  /** The permastruct used for the fallback: the comment feed one on a non-singular comment feed. PHP's false quotes as "". */
  function FallbackPermastruct(req: Request): string {
    if !req.isSingular && req.isCommentFeed then req.commentFeedPermastruct.GetOr("")
    else req.feedPermastruct.GetOr("")
  }

  /** The header sent with the 404: html_type . '; charset=' . blog_charset. */
  function NotFoundContentType(req: Request): string {
    req.htmlType + "; charset=" + req.blogCharset
  }

  /** The feed query var after the plugin clears it: "old" is kept so the host can redirect it itself. */
  function ClearedFeedVar(v: string): string {
    if v != "old" then "" else v
  }

  /**
   * dfwp_redirect_feed, once the setting has been read.
   * stripSuffix(url, regex) stands for esc_url(preg_replace(regex, '', url)); escUrlRaw for esc_url_raw.
   */
  function RedirectFeedStep(setting: string, q: QueryState, req: Request,
                            stripSuffix: (string, string) -> string, escUrlRaw: string -> string): Step
  {
    if setting == "on" then
      if req.feedInGet then Step(Redirect301(escUrlRaw(req.urlWithoutFeedArg)), q)
      else
        var q' := q.(feedVar := ClearedFeedVar(q.feedVar));
        if req.canonicalRedirect.Some? then Step(Redirect301(req.canonicalRedirect.value), q')
        else
          var newUrl := stripSuffix(req.requestedUrl, FeedSuffixRegex(FallbackPermastruct(req)));
          if newUrl != req.requestedUrl then Step(Redirect301(escUrlRaw(newUrl)), q')
          else Step(PassThrough, q')
    else
      Step(NotFound(NotFoundContentType(req)), q.(isFeed := false, is404 := true))
  }

  /** dfwp_filter_feeds: the outcome, the option store and the query state it leaves. */
  function FilterFeedsStep(m: Store, q: QueryState, req: Request,
                           stripSuffix: (string, string) -> string, escUrlRaw: string -> string): (Step, Store)
  {
    if !q.isFeed || q.is404 then (Step(PassThrough, q), m)
    else (RedirectFeedStep(Status(m), q, req, stripSuffix, escUrlRaw), AfterStatusRead(m))
  }

  /** A request that is not a feed, or already a 404, is left alone: no redirect, no 404, nothing written. */
  lemma NotAFeedIsLeftAlone(m: Store, q: QueryState, req: Request,
                            stripSuffix: (string, string) -> string, escUrlRaw: string -> string)
    requires !q.isFeed || q.is404
    ensures FilterFeedsStep(m, q, req, stripSuffix, escUrlRaw) == (Step(PassThrough, q), m)
  {
  }

  /** With the setting not "on", a feed request becomes a non-feed 404 with the site's HTML content type. */
  lemma SettingOffGivesNotFound(m: Store, q: QueryState, req: Request,
                                stripSuffix: (string, string) -> string, escUrlRaw: string -> string)
    requires q.isFeed && !q.is404 && Status(m) != "on"
    ensures var (step, m') := FilterFeedsStep(m, q, req, stripSuffix, escUrlRaw);
      && step.outcome == NotFound(req.htmlType + "; charset=" + req.blogCharset)
      && !step.query.isFeed && step.query.is404 && step.query.feedVar == q.feedVar
      && m' == AfterStatusRead(m)
  {
  }

  /** With the setting "on" and ?feed in the query string, the redirect drops only that argument and nothing else runs. */
  lemma FeedArgumentRedirect(setting: string, q: QueryState, req: Request,
                             stripSuffix: (string, string) -> string, escUrlRaw: string -> string)
    requires setting == "on" && req.feedInGet
    ensures RedirectFeedStep(setting, q, req, stripSuffix, escUrlRaw)
            == Step(Redirect301(escUrlRaw(req.urlWithoutFeedArg)), q)
  {
  }

  /** Without ?feed, the feed var is cleared (unless "old") before the host's canonical redirect, which wins when it fires. */
  lemma CanonicalRedirectWins(setting: string, q: QueryState, req: Request,
                              stripSuffix: (string, string) -> string, escUrlRaw: string -> string)
    requires setting == "on" && !req.feedInGet && req.canonicalRedirect.Some?
    ensures var step := RedirectFeedStep(setting, q, req, stripSuffix, escUrlRaw);
      && step.outcome == Redirect301(req.canonicalRedirect.value)
      && step.query == QueryState(q.isFeed, q.is404, if q.feedVar == "old" then "old" else "")
  {
  }

  /** The fallback redirects exactly when stripping the feed suffix changed the URL; otherwise the request passes through. */
  lemma FallbackRedirectsIffChanged(setting: string, q: QueryState, req: Request,
                                    stripSuffix: (string, string) -> string, escUrlRaw: string -> string)
    requires setting == "on" && !req.feedInGet && req.canonicalRedirect.None?
    ensures var step := RedirectFeedStep(setting, q, req, stripSuffix, escUrlRaw);
      var stripped := stripSuffix(req.requestedUrl, "#" + FeedPermalinkPattern(FallbackPermastruct(req)) + "/?$#");
      && (step.outcome.Redirect301? <==> stripped != req.requestedUrl)
      && (step.outcome.Redirect301? ==> step.outcome.location == escUrlRaw(stripped))
      && (!step.outcome.Redirect301? ==> step.outcome == PassThrough)
      && step.query == QueryState(q.isFeed, q.is404, if q.feedVar == "old" then "old" else "")
  {
  }

  /** "on" never gives a 404 and never touches is_feed or is_404; any other setting never redirects. */
  lemma SettingDecidesTheKindOfOutcome(setting: string, q: QueryState, req: Request,
                                       stripSuffix: (string, string) -> string, escUrlRaw: string -> string)
    ensures var step := RedirectFeedStep(setting, q, req, stripSuffix, escUrlRaw);
      && (setting == "on" ==> !step.outcome.NotFound? && step.query.isFeed == q.isFeed && step.query.is404 == q.is404)
      && (setting != "on" ==> step.outcome.NotFound?)
  {
  }

  /** dfwp_redirect_feed */
  method RedirectFeed(store: OptionStore, query: WpQuery, req: Request,
                      stripSuffix: (string, string) -> string, escUrlRaw: string -> string)
    returns (outcome: Outcome)
    modifies store, query
    ensures var step := RedirectFeedStep(Status(old(store.entries)), old(query.State()), req, stripSuffix, escUrlRaw);
      outcome == step.outcome && query.State() == step.query
    ensures store.entries == AfterStatusRead(old(store.entries))
  {
    var setting := RedirectStatus(store);
    if setting == "on" {
      if req.feedInGet {
        outcome := Redirect301(escUrlRaw(req.urlWithoutFeedArg));
        return;
      }
      if query.feedVar != "old" {
        query.feedVar := "";
      }
      if req.canonicalRedirect.Some? {
        outcome := Redirect301(req.canonicalRedirect.value);
        return;
      }
      var struct := FallbackPermastruct(req);
      var newUrl := stripSuffix(req.requestedUrl, FeedSuffixRegex(struct));
      if newUrl != req.requestedUrl {
        outcome := Redirect301(escUrlRaw(newUrl));
        return;
      }
      outcome := PassThrough;
    } else {
      query.isFeed := false;
      query.is404 := true;
      outcome := NotFound(NotFoundContentType(req));
    }
  }

  /** dfwp_filter_feeds */
  method FilterFeeds(store: OptionStore, query: WpQuery, req: Request,
                     stripSuffix: (string, string) -> string, escUrlRaw: string -> string)
    returns (outcome: Outcome)
    modifies store, query
    ensures var (step, m') := FilterFeedsStep(old(store.entries), old(query.State()), req, stripSuffix, escUrlRaw);
      outcome == step.outcome && query.State() == step.query && store.entries == m'
  {
    if !query.isFeed || query.is404 {
      return PassThrough;
    }
    outcome := RedirectFeed(store, query, req, stripSuffix, escUrlRaw);
  }
}
