# Disable Feeds WP, modelled in Dafny

Disable Feeds WP is a WordPress plugin that switches off a site's RSS, Atom and RDF feeds.
A feed request is either redirected permanently (301) to the HTML page it belongs to, or turned into a 404.
The option `dfwp_redirect` chooses between the two: `"on"`, the default, redirects; any other value gives the 404.
The plugin also does the same for bbPress forum, topic and reply feeds, adds a "Settings" link to its own row in the plugin list, and deletes its option when it is deactivated.

This project models the plugin's own logic. WordPress calls are treated as inputs and outputs:

- `Options`: the option table as a class over a `map` from key to a string-or-boolean value. It models `dfwp_redirect_status`, which supplies the default and writes a legacy boolean back as `"on"`/`"off"`, and it models deactivation.
- `Feeds`: `$wp_query` as a class holding `is_feed`, `is_404` and the `feed` query var. It models `dfwp_filter_feeds` and `dfwp_redirect_feed`.
  - Each host answer (is `?feed` in the query string, where `redirect_canonical` redirected, the permastructs, the requested URL, `html_type`, `blog_charset`) is a field of a `Request` value.
  - `esc_url(preg_replace(regex, '', url))` and `esc_url_raw` are function parameters.
  - The result is an `Outcome`: `PassThrough`, `Redirect301(location)` or `NotFound(contentType)`.
  - Each method is proved against a pure step function, and the lemmas state the decision's properties over that function.
- `FeedPattern`: the fallback pattern built from the permastruct, as pure functions. These are `preg_quote` with `#` as delimiter, `str_replace('%feed%', '(\w+)?', …)` and the collapse of slash runs, with their lemmas.
- `BbPress`: the `bbp_request` filter. Its `foreach`/`break` search is a loop method proved against a recursive reference function.
- `PhpArrays` and `SettingsLink`: PHP's `array_merge` on ordered key/value arrays, and the plugin-list link filter built on it.

## Model

| member | source | states |
|---|---|---|
| Options.Status | disable-feeds-wp/disable-feeds-wp.php:236-243 | the value dfwp_redirect_status returns: the stored string as it is, true as "on", false as "off", and "on" when the option is missing |
| Options.AfterStatusRead | disable-feeds-wp/disable-feeds-wp.php:238-241 | the store after that read: a stored boolean is replaced by its "on"/"off" string, any other store is left as it is |
| Options.StatusReadCases | disable-feeds-wp/disable-feeds-wp.php:237-242 | a missing key reads as "on" and writes nothing; a stored string is returned as it is with no write; a stored true/false reads as "on"/"off" and the store then holds that string |
| Options.StatusReadIsStable | disable-feeds-wp/disable-feeds-wp.php:238-241 | after a read no boolean is left, no other option changes, and a second read returns the same value and writes nothing |
| Options.StatusIsOnOrOff | disable-feeds-wp/disable-feeds-wp.php:236-243 | with the key absent, a boolean, "on" or "off" stored, the read yields "on" or "off" |
| Options.DeactivationRestoresDefault | disable-feeds-wp/disable-feeds-wp.php:248-250 | once the key is deleted, the next read yields the default "on" and writes nothing |
| Options.OptionStore.Get | disable-feeds-wp/disable-feeds-wp.php:237 | get_option returns the stored value, or the default when the key is absent |
| Options.OptionStore.Update | disable-feeds-wp/disable-feeds-wp.php:240 | update_option stores the value under the key and changes nothing else |
| Options.OptionStore.Delete | disable-feeds-wp/disable-feeds-wp.php:249 | delete_option removes exactly that key |
| Options.RedirectStatus | disable-feeds-wp/disable-feeds-wp.php:236-243 | returns Status of the old store and leaves the store normalised (a boolean replaced by its string) |
| Options.RemoveOptionsOnDeactivation | disable-feeds-wp/disable-feeds-wp.php:248-250 | the store loses only the dfwp_redirect key, and the setting then reads as "on" |
| Feeds.FilterFeedsStep | disable-feeds-wp/disable-feeds-wp.php:140-146 | the whole of dfwp_filter_feeds: nothing happens unless the query is a feed and not a 404; then the setting is read (with its write-back) and RedirectFeedStep decides |
| Feeds.RedirectFeedStep | disable-feeds-wp/disable-feeds-wp.php:197-230 | the decision of dfwp_redirect_feed in source order: with "on", a feed argument in the URL redirects first; otherwise the feed var is cleared, a canonical redirect wins, and else the stripped URL redirects when it differs; any other setting gives the 404 |
| Feeds.FallbackPermastruct | disable-feeds-wp/disable-feeds-wp.php:212 | the comment feed permastruct on a non-singular comment feed, the feed permastruct otherwise, "" when the host has none |
| Feeds.ClearedFeedVar | disable-feeds-wp/disable-feeds-wp.php:204-206 | the feed query var after the plugin clears it: "" unless it was "old" |
| Feeds.NotFoundContentType | disable-feeds-wp/disable-feeds-wp.php:229 | the Content-Type sent with the 404: html_type, "; charset=", blog_charset |
| Feeds.NotAFeedIsLeftAlone | disable-feeds-wp/disable-feeds-wp.php:140-146 | a request that is not a feed, or already a 404, passes through: the query state and the option store are unchanged |
| Feeds.SettingOffGivesNotFound | disable-feeds-wp/disable-feeds-wp.php:224-229 | a feed request with a setting other than "on" ends as NotFound with content type html_type + "; charset=" + blog_charset; is_feed becomes false and is_404 true; the feed var is kept |
| Feeds.FeedArgumentRedirect | disable-feeds-wp/disable-feeds-wp.php:197-201 | with "on" and ?feed in the query string, the outcome is a 301 to the URL with only the feed argument removed, and no later step runs: the query state is unchanged |
| Feeds.CanonicalRedirectWins | disable-feeds-wp/disable-feeds-wp.php:204-209 | without ?feed, the feed var is cleared to "" unless it is "old", and a canonical redirect, when it fires, is the outcome |
| Feeds.FallbackRedirectsIffChanged | disable-feeds-wp/disable-feeds-wp.php:211-222 | when no canonical redirect fired, the outcome is a 301 exactly when stripping the permastruct pattern changed the URL, and it goes to the stripped URL; otherwise the request passes through |
| Feeds.SettingDecidesTheKindOfOutcome | disable-feeds-wp/disable-feeds-wp.php:197-230 | "on" never gives a 404 and never touches is_feed or is_404; any other setting always gives the 404 |
| Feeds.RedirectFeed | disable-feeds-wp/disable-feeds-wp.php:193-231 | outcome and new query state are those of RedirectFeedStep on the setting read from the old store; the store is normalised by the read |
| Feeds.FilterFeeds | disable-feeds-wp/disable-feeds-wp.php:140-146 | outcome, query state and store are those of FilterFeedsStep: nothing happens unless the request is a feed and not a 404 |
| FeedPattern.QuoteChar | disable-feeds-wp/disable-feeds-wp.php:213 | how preg_quote writes one character: NUL as \000, a special character or "#" behind a backslash, anything else as itself |
| FeedPattern.PregQuote | disable-feeds-wp/disable-feeds-wp.php:213 | preg_quote($struct, '#'): each character quoted in turn |
| FeedPattern.PregQuoteIsLiteral | disable-feeds-wp/disable-feeds-wp.php:213 | in the quoted text every special character, NUL and "#" stands behind a backslash, so the regex matches the permastruct literally |
| FeedPattern.UnquotePregQuote | disable-feeds-wp/disable-feeds-wp.php:213 | preg_quote loses nothing: reading the quoted text back as a regex literal gives the original string |
| FeedPattern.PregQuotePlain | disable-feeds-wp/disable-feeds-wp.php:213 | a string with no special character, NUL or delimiter is left unchanged by preg_quote |
| FeedPattern.ReplaceFeedTag | disable-feeds-wp/disable-feeds-wp.php:214 | str_replace('%feed%', '(\w+)?', ...): a left-to-right scan that replaces each non-overlapping "%feed%" and copies every other character |
| FeedPattern.ReplaceLeavesNoFeedTag | disable-feeds-wp/disable-feeds-wp.php:214 | after the replacement no "%feed%" remains, including none formed across a replacement |
| FeedPattern.ReplaceAtFeedTag | disable-feeds-wp/disable-feeds-wp.php:214 | the first "%feed%" becomes "(\w+)?" and the text before it is copied, whatever that text holds (a lone "%" or another "%tag%" included), as long as no "%feed%" starts earlier |
| FeedPattern.ReplaceWithoutFeedTag | disable-feeds-wp/disable-feeds-wp.php:214 | a string with no "%feed%" is unchanged |
| FeedPattern.CollapseSlashes | disable-feeds-wp/disable-feeds-wp.php:215 | the result has no "//", is no longer than the input, and starts with the input's first character |
| FeedPattern.CollapseStep | disable-feeds-wp/disable-feeds-wp.php:215 | a double slash anywhere collapses exactly as a single slash there, so each run of slashes keeps one slash |
| FeedPattern.CollapseFixedPoint | disable-feeds-wp/disable-feeds-wp.php:215 | collapsing leaves a string unchanged if and only if it has no "//" |
| FeedPattern.CollapseIdempotent | disable-feeds-wp/disable-feeds-wp.php:215 | collapsing twice gives the same as collapsing once |
| FeedPattern.CollapseKeepsOtherChars | disable-feeds-wp/disable-feeds-wp.php:215 | collapsing removes only slashes: the other characters are kept, in order |
| FeedPattern.CollapseCreatesNoOccurrence | disable-feeds-wp/disable-feeds-wp.php:215 | collapsing cannot create an occurrence of a slash-free text such as "%feed%" |
| FeedPattern.FeedPermalinkPattern | disable-feeds-wp/disable-feeds-wp.php:213-215 | the finished pattern contains no "%feed%" and no "//" |
| FeedPattern.FeedSuffixRegex | disable-feeds-wp/disable-feeds-wp.php:218 | the pattern handed to preg_replace: "#", the built permastruct pattern, then "/?$#" |
| FeedPattern.PlainPermastructPattern | disable-feeds-wp/disable-feeds-wp.php:212-215 | a permastruct made of plain text without "//", followed by "%feed%", becomes that text followed by "(\w+)?" |
| FeedPattern.DefaultFeedPermastruct | disable-feeds-wp/disable-feeds-wp.php:212-215 | the usual feed permastruct "/feed/%feed%" gives the pattern "/feed/(\w+)?" |
| BbPress.PostTypesToCheck | disable-feeds-wp/disable-feeds-wp.php:156-165 | $post_types: the forum, topic and reply type names in that order when all three bbPress functions exist, else empty |
| BbPress.ArrayCast | disable-feeds-wp/disable-feeds-wp.php:170 | (array) $query_vars['post_type']: an array as it is, null as empty, any other value wrapped in a one-element array |
| BbPress.PhpEmpty | disable-feeds-wp/disable-feeds-wp.php:181 | PHP empty() on the matched name: true for "" and "0" |
| BbPress.TriggersRedirect | disable-feeds-wp/disable-feeds-wp.php:154-183 | when the filter calls dfwp_redirect_feed: feed and post_type are set and the first bbPress type found in the cast post_type is not empty |
| BbPress.FirstMember | disable-feeds-wp/disable-feeds-wp.php:173-178 | some candidate is found if and only if one is in the array (strict in_array); the one found is in it and no earlier candidate is |
| BbPress.FindBbpPostType | disable-feeds-wp/disable-feeds-wp.php:169-178 | the foreach with break returns exactly FirstMember of the post types and the array-cast post_type |
| BbPress.NoBbPressNeverTriggers | disable-feeds-wp/disable-feeds-wp.php:156-183 | when the bbPress functions are missing the filter never triggers the redirect decision |
| BbPress.TriggersExactlyOnBbPressFeeds | disable-feeds-wp/disable-feeds-wp.php:154-183 | when the bbPress type names are non-empty, the filter triggers if and only if feed and post_type are set, bbPress is present and one of its three types is in the array-cast post_type |
| BbPress.StringPostTypeIsCastToSingleton | disable-feeds-wp/disable-feeds-wp.php:170-176 | for every query and every bbPress setup, a post_type given as a single string triggers the redirect exactly when a one-element array holding it does |
| BbPress.FilterBbpFeeds | disable-feeds-wp/disable-feeds-wp.php:151-188 | query_vars come back unchanged; when triggered the outcome, query state and store are those of dfwp_redirect_feed, otherwise nothing happens |
| PhpArrays.Put | disable-feeds-wp/disable-feeds-wp.php:94 | array_merge storing one entry: an integer key is appended under the next index, a new string key is appended, an existing string key has its value overwritten in place |
| PhpArrays.ArrayMerge | disable-feeds-wp/disable-feeds-wp.php:94 | array_merge($a, $b): every entry of $a and then of $b stored in order by Put into an empty array |
| PhpArrays.FindIsFirst | disable-feeds-wp/disable-feeds-wp.php:94 | the key lookup used by array_merge gives -1 exactly for an absent key, and otherwise the first position of the key |
| PhpArrays.AppendFreshKeys | disable-feeds-wp/disable-feeds-wp.php:94 | merging entries whose string keys are new appends them in order, with integer keys renumbered |
| PhpArrays.AppendKeepsFirstEntry | disable-feeds-wp/disable-feeds-wp.php:94 | array_merge never moves the first entry; a later entry with the same string key replaces only its value |
| PhpArrays.MergeFreshBehindEntry | disable-feeds-wp/disable-feeds-wp.php:94 | array_merge of one string-keyed entry and an array with new keys is that entry followed by the array, renumbered |
| PhpArrays.RenumberStringKeys | disable-feeds-wp/disable-feeds-wp.php:94 | renumbering does not change an array with only string keys |
| PhpArrays.LastValueOfDistinct | disable-feeds-wp/disable-feeds-wp.php:94 | in an array with distinct keys, the value that survives for a key is the one stored under it |
| SettingsLink.SettingsAnchor | disable-feeds-wp/disable-feeds-wp.php:93 | the settings link markup: an anchor to the admin URL with the translated link text |
| SettingsLink.AddSettingsLink | disable-feeds-wp/disable-feeds-wp.php:85-97 | actions come back unchanged unless plugin_file equals the plugin basename; in that case a "settings" entry comes first |
| SettingsLink.SettingsLinkPrepended | disable-feeds-wp/disable-feeds-wp.php:92-95 | on this plugin's row with no "settings" entry yet, the result is the settings link followed by the original entries, with integer keys renumbered; string-keyed actions are kept exactly |
| SettingsLink.ExistingSettingsEntryMovesFirst | disable-feeds-wp/disable-feeds-wp.php:92-95 | an existing "settings" entry keeps its own value and becomes the first entry |

The settings screen offers the two values "on" and "off" and labels the second one "Redirect feed requests on the 404 page." (line 110). The code takes the 404 path for every value other than "on" (line 197), including any other string that has been stored. The model follows the code.

## Left out

- The singleton, the constructor and the hook registration (lines 48-72 and 254), and `dfwp_admin_setup` (77-80). They only wire the object into WordPress.
- `dfwp_settings_field` (102-127). It only prints HTML through host escaping and translation functions.
- `dfwp_remove_links` (132-135). It consists of two host calls.
- The matching at line 218. Full PCRE semantics are not modelled: `esc_url(preg_replace(regex, '', url))` is the parameter `stripSuffix`, applied to the exact regex `'#' . pattern . '/?$#'`. FeedPattern.Unquote reads back only what preg_quote writes; it is not a regex engine.
- The host functions `is_feed`, `is_404`, `is_singular`, `is_comment_feed`, `redirect_canonical`, `remove_query_arg`, `esc_url`, `esc_url_raw`, `admin_url`, `__`, `plugin_basename` and the rewrite permastructs. Their code is not part of this model, so their answers are inputs.
- Building the requested URL from `is_ssl()` and `$_SERVER` (216-217). The escaped URL is the input `requestedUrl`.
- The HTTP effects `wp_redirect`, `status_header`, `header` and `exit`. They are recorded in the `Outcome` value.
- What `set_404` also resets. Only `is_feed` becoming false and `is_404` becoming true are modelled.
- Feeds.RedirectFeed: the loose PHP comparisons `==` and `!=` (lines 197 and 219) are modelled as plain string equality. PHP 8 compares two numeric strings by value. That never applies to "on", but two numeric-looking URLs would compare by value.
- SettingsLink.AddSettingsLink: the loose comparison at line 92 is modelled as string equality. This is exact because the basename is not a numeric string.
- Options.OptionStore: only string and boolean values are modelled. Other PHP types a filter could put in the option are not.
- BbPress.QueryValue: scalars other than strings are lumped together as `QOther`. A strict `in_array` with a string never matches them.
- PhpArrays.Key: PHP turns numeric string keys into integer keys. Keys here are taken as already converted, and values are strings.
- BbPress.FilterBbpFeeds: when the redirect decision exits, PHP never returns. The model still returns `query_vars`, and the `Redirect301` outcome says that the request ended.
- Option persistence, caching and concurrency. Each request runs to completion on its own.
