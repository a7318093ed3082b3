/**
 * dfwp_filter_bbp_feeds, hooked on bbPress's 'bbp_request' filter: when the query
 * asks for a feed of a forum, topic or reply, the same redirect-or-404 decision
 * runs before bbPress serves the feed; the query vars are returned as they came.
 */
module BbPress {
  import opened Wrappers
  import opened Options
  import opened Feeds

  /** A query var value as PHP holds it: null, a string, some other scalar, or an array of values. */
  datatype QueryValue = QNull | QString(s: string) | QOther | QArray(items: seq<QueryValue>)

  type QueryVars = map<string, QueryValue>

  /** isset($query_vars[key]) */
  predicate IsSet(qv: QueryVars, key: string) {
    key in qv && !qv[key].QNull?
  }

  /** (array) $value: an array stays as it is, null becomes empty, any other value is wrapped. */
  function ArrayCast(v: QueryValue): seq<QueryValue> {
    match v
    case QNull => []
    case QArray(items) => items
    case _ => [v]
  }

  /** The names bbp_get_forum_post_type(), bbp_get_topic_post_type() and bbp_get_reply_post_type() return. */
  datatype BbpPostTypes = BbpPostTypes(forum: string, topic: string, reply: string)

  /** $post_types: empty unless all three bbPress functions exist (bbp is None when one is missing). */
  function PostTypesToCheck(bbp: Option<BbpPostTypes>): seq<string> {
    match bbp
    case None => []
    case Some(t) => [t.forum, t.topic, t.reply]
  }

  /** The first candidate that in_array($candidate, $haystack, true) finds. */
  function FirstMember(candidates: seq<string>, haystack: seq<QueryValue>): (r: Option<string>)
    ensures r.Some? <==> exists i :: 0 <= i < |candidates| && QString(candidates[i]) in haystack
    ensures r.Some? ==> exists i :: 0 <= i < |candidates| && candidates[i] == r.value
                          && QString(candidates[i]) in haystack
                          && forall j :: 0 <= j < i ==> QString(candidates[j]) !in haystack
    decreases |candidates|
  {
    if candidates == [] then None
    else if QString(candidates[0]) in haystack then Some(candidates[0])
    else
      var r := FirstMember(candidates[1..], haystack);
      assert forall i :: 1 <= i < |candidates| ==> candidates[i] == candidates[1..][i - 1];
      r
  }

  /** PHP's empty() on the matched name: "" and "0" count as empty. */
  predicate PhpEmpty(s: string) {
    s == "" || s == "0"
  }

  /** Whether dfwp_filter_bbp_feeds calls dfwp_redirect_feed. */
  predicate TriggersRedirect(qv: QueryVars, bbp: Option<BbpPostTypes>) {
    && IsSet(qv, "feed")
    && IsSet(qv, "post_type")
    && var found := FirstMember(PostTypesToCheck(bbp), ArrayCast(qv["post_type"]));
       found.Some? && !PhpEmpty(found.value)
  }

  /** Without bbPress the filter never triggers. */
  lemma NoBbPressNeverTriggers(qv: QueryVars)
    ensures !TriggersRedirect(qv, None)
  {
  }

  /** With bbPress's usual non-empty type names, the filter triggers exactly on a feed query for one of them. */
  lemma TriggersExactlyOnBbPressFeeds(qv: QueryVars, bbp: Option<BbpPostTypes>)
    requires bbp.Some? ==> !PhpEmpty(bbp.value.forum) && !PhpEmpty(bbp.value.topic)
                           && !PhpEmpty(bbp.value.reply)
    ensures TriggersRedirect(qv, bbp) <==>
              && IsSet(qv, "feed") && IsSet(qv, "post_type") && bbp.Some?
              && (|| QString(bbp.value.forum) in ArrayCast(qv["post_type"])
                  || QString(bbp.value.topic) in ArrayCast(qv["post_type"])
                  || QString(bbp.value.reply) in ArrayCast(qv["post_type"]))
  {
    if IsSet(qv, "post_type") && bbp.Some? {
      var c := PostTypesToCheck(bbp);
      var h := ArrayCast(qv["post_type"]);
      assert c[0] == bbp.value.forum && c[1] == bbp.value.topic && c[2] == bbp.value.reply;
      var found := FirstMember(c, h);
      if found.Some? {
        var i :| 0 <= i < |c| && c[i] == found.value && QString(c[i]) in h;
        assert !PhpEmpty(c[i]);
      }
    }
  }

  /** A plain string post_type is matched exactly like a one-element array holding it. */
  lemma StringPostTypeIsCastToSingleton(qv: QueryVars, bbp: Option<BbpPostTypes>, s: string)
    ensures TriggersRedirect(qv["post_type" := QString(s)], bbp)
            == TriggersRedirect(qv["post_type" := QArray([QString(s)])], bbp)
  {
    assert ArrayCast(QString(s)) == ArrayCast(QArray([QString(s)]));
  }

  /** The foreach over $post_types with its break: the first bbPress type in the cast post_type array. */
  method FindBbpPostType(postTypes: seq<string>, requested: seq<QueryValue>) returns (postType: Option<string>)
    ensures postType == FirstMember(postTypes, requested)
  {
    postType := None;
    var i := 0;
    while i < |postTypes|
      invariant 0 <= i <= |postTypes|
      invariant postType == None
      invariant FirstMember(postTypes, requested) == FirstMember(postTypes[i..], requested)
    {
      if QString(postTypes[i]) in requested {
        postType := Some(postTypes[i]);
        break;
      }
      assert postTypes[i..][1..] == postTypes[i + 1..];
      i := i + 1;
    }
  }

  /** dfwp_filter_bbp_feeds */
  method FilterBbpFeeds(store: OptionStore, query: WpQuery, queryVars: QueryVars, bbp: Option<BbpPostTypes>,
                        req: Request, stripSuffix: (string, string) -> string, escUrlRaw: string -> string)
    returns (result: QueryVars, outcome: Outcome)
    modifies store, query
    ensures result == queryVars
    ensures TriggersRedirect(queryVars, bbp) ==>
              var step := RedirectFeedStep(Status(old(store.entries)), old(query.State()), req, stripSuffix, escUrlRaw);
              && outcome == step.outcome && query.State() == step.query
              && store.entries == AfterStatusRead(old(store.entries))
    ensures !TriggersRedirect(queryVars, bbp) ==>
              outcome == PassThrough && query.State() == old(query.State()) && store.entries == old(store.entries)
  {
    outcome := PassThrough;
    if IsSet(queryVars, "feed") {
      if IsSet(queryVars, "post_type") {
        var postTypes := PostTypesToCheck(bbp);
        var requested := ArrayCast(queryVars["post_type"]);
        var postType := FindBbpPostType(postTypes, requested);
        if postType.Some? && !PhpEmpty(postType.value) {
          outcome := RedirectFeed(store, query, req, stripSuffix, escUrlRaw);
        }
      }
    }
    result := queryVars;
  }
}
