/**
 * The live-search dropdown and the "load more" button of the search results
 * page (static/js/search.js). The DOM becomes plain fields: the dropdown's
 * content is a structured view rather than HTML, the debounce timer is a
 * single pending slot, and each network response is an argument of the
 * handler that receives it.
 */
module Search {
  import opened Wrappers
  import opened Text

  /** One post as the search API returns it; JSON `null` is `None`. */
  datatype PostJson = PostJson(
    id: int,
    title: string,
    summary: Option<string>,
    content: Option<string>,
    author: string,
    createdAt: string,
    featureImage: Option<string>)

  /** The decoded response body: `posts` and `total_items` may be missing. */
  datatype SearchData = SearchData(posts: Option<seq<PostJson>>, totalItems: Option<int>)

  /** What a fetch settles with: a decoded body, or any failure (transport, non-2xx, bad JSON). */
  datatype Response<T> = Received(body: T) | Failed

  /** JavaScript truthiness of an optional string: present and non-empty. */
  predicate Truthy(s: Option<string>) {
    s.Some? && s.value != ""
  }

  /**
   * `truncateText`: nothing for a missing or empty text, the text itself when
   * it fits, otherwise its first `maxLength` characters followed by "...".
   */
  function Truncate(text: Option<string>, maxLength: nat): (r: string)
    ensures !Truthy(text) ==> r == ""
    ensures Truthy(text) && |text.value| <= maxLength ==> r == text.value
    ensures Truthy(text) && |text.value| > maxLength ==>
              |r| == maxLength + 3 && StartsWith(text.value, r[..maxLength]) && r[maxLength..] == "..."
    ensures |r| <= maxLength + 3
  {
    if !Truthy(text) then ""
    else if |text.value| <= maxLength then text.value
    else text.value[..maxLength] + "..."
  }

  /** `post.summary || truncateText(post.content, maxLength)` */
  function Excerpt(post: PostJson, maxLength: nat): (r: string)
    ensures Truthy(post.summary) ==> r == post.summary.value
    ensures !Truthy(post.summary) ==> r == Truncate(post.content, maxLength)
  {
    if Truthy(post.summary) then post.summary.value else Truncate(post.content, maxLength)
  }

  /** One dropdown entry: a link to the post with optional thumbnail, title and excerpt. */
  datatype Entry = Entry(postId: int, thumbnail: Option<string>, title: string, excerpt: string)

  /** The dropdown's content. */
  datatype ResultsView =
    | Blank
    | NoResults(query: string)
    | Listing(query: string, entries: seq<Entry>, viewAll: Option<int>)
    | SearchError

  /** The entry for one post; the excerpt of a dropdown entry is cut at 50 characters. */
  function EntryFor(post: PostJson): (e: Entry)
    ensures e.postId == post.id && e.title == post.title
    ensures e.thumbnail.Some? <==> Truthy(post.featureImage)
    ensures e.thumbnail.Some? ==> e.thumbnail == post.featureImage
    ensures e.excerpt == Excerpt(post, 50)
  {
    Entry(post.id, if Truthy(post.featureImage) then post.featureImage else None, post.title, Excerpt(post, 50))
  }

  /**
   * What `displaySearchResults` shows: the no-results message when `posts`
   * is missing or empty; otherwise one entry per post in response order,
   * followed by a "View all N results" link exactly when `total_items`
   * exceeds the number of posts received.
   */
  function DropdownView(data: SearchData, query: string): (view: ResultsView)
    ensures data.posts.None? || data.posts.value == [] ==> view == NoResults(query)
    ensures data.posts.Some? && data.posts.value != [] ==>
              && view.Listing?
              && view.query == query
              && |view.entries| == |data.posts.value|
              && (forall k :: 0 <= k < |view.entries| ==> view.entries[k] == EntryFor(data.posts.value[k]))
              && (view.viewAll.Some? <==> data.totalItems.Some? && data.totalItems.value > |data.posts.value|)
              && (view.viewAll.Some? ==> view.viewAll == data.totalItems)
  {
    if data.posts.None? || data.posts.value == [] then NoResults(query)
    else
      var posts := data.posts.value;
      Listing(query, seq(|posts|, k requires 0 <= k < |posts| => EntryFor(posts[k])),
              if data.totalItems.Some? && data.totalItems.value > |posts| then data.totalItems else None)
  }

  /** `displaySearchResults`: the `forEach` over the posts builds exactly that view. */
  method RenderDropdown(data: SearchData, query: string) returns (view: ResultsView)
    ensures view == DropdownView(data, query)
  {
    if data.posts.None? || data.posts.value == [] {
      return NoResults(query);
    }
    var posts := data.posts.value;
    var entries: seq<Entry> := [];
    var i := 0;
    while i < |posts|
      invariant 0 <= i <= |posts|
      invariant |entries| == i
      invariant forall k :: 0 <= k < i ==> entries[k] == EntryFor(posts[k])
    {
      entries := entries + [EntryFor(posts[i])];
      i := i + 1;
    }
    var viewAll := None;
    if data.totalItems.Some? && data.totalItems.value > |posts| {
      viewAll := data.totalItems;
    }
    view := Listing(query, entries, viewAll);
  }

  /** Where a click on the page landed, relative to the search widgets. */
  datatype ClickTarget = OnSearchInput | InsideResults | Elsewhere

  /**
   * The live-search input: the text typed so far, the one pending debounce
   * timer (holding the query its callback captured), the queries sent to
   * the search API, the loading indicator and the results dropdown.
   */
  class LiveSearch {
    var inputValue: string
    var pending: Option<string>
    var requests: seq<string>
    var loadingShown: bool
    var results: ResultsView
    var resultsShown: bool

    /**
     * A pending timer always carries the trimmed current input, which is not
     * empty, and no request was ever sent for an empty or untrimmed query.
     */
    ghost predicate Valid()
      reads this
    {
      && (pending.Some? ==> pending.value != "" && pending.value == Trim(inputValue))
      && (forall k :: 0 <= k < |requests| ==> requests[k] != "" && Trim(requests[k]) == requests[k])
    }

    constructor (initialInput: string)
      ensures Valid()
      ensures inputValue == initialInput && pending == None && requests == []
      ensures !loadingShown && results == Blank && !resultsShown
    {
      inputValue := initialInput;
      pending := None;
      requests := [];
      loadingShown := false;
      results := Blank;
      resultsShown := false;
    }

    /**
     * The `input` handler: the pending timer is cancelled first; an input
     * that trims to nothing clears and hides the dropdown, any other input
     * shows the loading indicator and arms a new timer for the trimmed text.
     * No request is sent here.
     */
    method Input(raw: string)
      requires Valid()
      modifies this
      ensures Valid()
      ensures inputValue == raw && requests == old(requests)
      ensures AllWhitespace(raw) ==>
                pending == None && results == Blank && !resultsShown && loadingShown == old(loadingShown)
      ensures !AllWhitespace(raw) ==>
                pending == Some(Trim(raw)) && loadingShown
                && results == old(results) && resultsShown == old(resultsShown)
    {
      inputValue := raw;
      var query := Trim(raw);
      pending := None;
      TrimEmptyIff(raw);
      if query == "" {
        results := Blank;
        resultsShown := false;
        return;
      }
      loadingShown := true;
      TrimIdempotent(raw);
      pending := Some(query);
    }

    /**
     * The debounce timer fires: the query it holds is sent to the search
     * API and the slot empties. Without a pending timer nothing happens.
     */
    method TimerFires() returns (sent: Option<string>)
      requires Valid()
      modifies this
      ensures Valid()
      ensures sent == old(pending) && pending == None
      ensures sent.Some? ==> sent.value == Trim(inputValue) && sent.value != ""
      ensures requests == if sent.Some? then old(requests) + [sent.value] else old(requests)
      ensures inputValue == old(inputValue) && loadingShown == old(loadingShown)
      ensures results == old(results) && resultsShown == old(resultsShown)
    {
      sent := pending;
      if pending.Some? {
        TrimIdempotent(inputValue);
        requests := requests + [pending.value];
        pending := None;
      }
    }

    /**
     * A search request for `query` settles: the loading indicator hides and
     * the dropdown shows the rendered results or the error message. The
     * handler does not check whether `query` is still the latest one.
     */
    method Respond(query: string, response: Response<SearchData>)
      requires Valid()
      modifies this
      ensures Valid()
      ensures !loadingShown && resultsShown
      ensures response.Failed? ==> results == SearchError
      ensures response.Received? ==> results == DropdownView(response.body, query)
      ensures inputValue == old(inputValue) && pending == old(pending) && requests == old(requests)
    {
      loadingShown := false;
      if response.Received? {
        results := RenderDropdown(response.body, query);
      } else {
        results := SearchError;
      }
      resultsShown := true;
    }

    /**
     * A click anywhere on the page hides a shown dropdown unless it landed on
     * the input or inside the dropdown; the dropdown's content is kept.
     */
    method ClickOutside(target: ClickTarget)
      requires Valid()
      modifies this
      ensures Valid()
      ensures resultsShown == (old(resultsShown) && target != Elsewhere)
      ensures results == old(results) && inputValue == old(inputValue)
      ensures pending == old(pending) && requests == old(requests) && loadingShown == old(loadingShown)
    {
      if resultsShown && target == Elsewhere {
        resultsShown := false;
      }
    }
  }

  /** Column holding a result card's text: narrower when the card has an image. */
  datatype Column = EightTwelfths | Full

  /** A card of the full results page (`createPostElement`). */
  datatype Card = Card(
    image: Option<string>,
    textColumn: Column,
    title: string,
    text: string,
    author: string,
    createdAt: string,
    postId: int)

  /** The card for one post; its excerpt is cut at 150 characters. */
  function PostCard(post: PostJson): (c: Card)
    ensures c.image.Some? <==> Truthy(post.featureImage)
    ensures c.image.Some? ==> c.image == post.featureImage
    ensures c.textColumn == Full <==> c.image.None?
    ensures c.title == post.title && c.author == post.author && c.createdAt == post.createdAt
    ensures c.postId == post.id
    ensures Truthy(post.summary) ==> c.text == post.summary.value
    ensures !Truthy(post.summary) ==> c.text == Truncate(post.content, 150) && |c.text| <= 153
  {
    var image := if Truthy(post.featureImage) then post.featureImage else None;
    Card(image, if image.Some? then EightTwelfths else Full,
         post.title, Excerpt(post, 150), post.author, post.createdAt, post.id)
  }

  datatype Caption = LoadMore | Loading | TryAgain

  /**
   * The "load more" button of the results page and the cards above it.
   * `query` and `totalPages` are the button's `data-query` and
   * `data-total-pages` attributes; `totalPages` is `None` when the attribute
   * does not parse as an integer (`parseInt` gives NaN, and every comparison
   * with NaN is false). `requested` records the pages fetched so far.
   */
  class LoadMoreButton {
    const query: string
    const totalPages: Option<int>
    var currentPage: int
    var disabled: bool
    var caption: Caption
    var hidden: bool
    var dataPage: Option<int>
    var cards: seq<Card>
    var requested: seq<int>

    /**
     * Pages are requested in strictly increasing order, each between 2 and
     * the total, and the latest is the current page; the button is disabled
     * exactly while a request is outstanding.
     */
    ghost predicate Valid()
      reads this
    {
      && currentPage >= 1
      && (forall k :: 0 <= k < |requested| ==>
            totalPages.Some? && 2 <= requested[k] <= totalPages.value && requested[k] <= currentPage)
      && (forall j, k :: 0 <= j < k < |requested| ==> requested[j] < requested[k])
      && (disabled ==> |requested| > 0 && requested[|requested| - 1] == currentPage && caption == Loading)
    }

    /** The first page is rendered by the server; the counter starts at 1. */
    constructor (query: string, totalPages: Option<int>, firstPage: seq<Card>)
      ensures Valid()
      ensures this.query == query && this.totalPages == totalPages
      ensures currentPage == 1 && !disabled && caption == LoadMore && !hidden
      ensures dataPage == None && cards == firstPage && requested == []
    {
      this.query := query;
      this.totalPages := totalPages;
      currentPage := 1;
      disabled := false;
      caption := LoadMore;
      hidden := false;
      dataPage := None;
      cards := firstPage;
      requested := [];
    }

    /**
     * A click (browsers deliver none to a disabled button): the counter goes
     * up by one; if it is within the total the page it names is requested
     * and the button shows a disabled spinner, otherwise the button hides.
     */
    method Click() returns (request: Option<int>)
      requires Valid() && !disabled
      modifies this
      ensures Valid()
      ensures currentPage == old(currentPage) + 1
      ensures request.Some? <==> totalPages.Some? && currentPage <= totalPages.value
      ensures request.Some? ==> request.value == currentPage && disabled && caption == Loading && hidden == old(hidden)
      ensures request.Some? ==> requested == old(requested) + [currentPage]
      ensures request.None? ==> hidden && !disabled && caption == old(caption) && requested == old(requested)
      ensures cards == old(cards) && dataPage == old(dataPage)
    {
      currentPage := currentPage + 1;
      if totalPages.Some? && currentPage <= totalPages.value {
        caption := Loading;
        disabled := true;
        requested := requested + [currentPage];
        request := Some(currentPage);
      } else {
        hidden := true;
        request := None;
      }
    }

    /**
     * The outstanding request succeeded: one card per received post is
     * appended after the existing ones, in response order; the button is
     * enabled again and hides once the last page has been reached.
     */
    method Succeed(posts: seq<PostJson>)
      requires Valid() && disabled
      modifies this
      ensures Valid()
      ensures |cards| == |old(cards)| + |posts|
      ensures cards[..|old(cards)|] == old(cards)
      ensures forall k :: 0 <= k < |posts| ==> cards[|old(cards)| + k] == PostCard(posts[k])
      ensures !disabled && caption == LoadMore
      ensures hidden == (old(hidden) || (totalPages.Some? && currentPage >= totalPages.value))
      ensures dataPage == Some(currentPage)
      ensures currentPage == old(currentPage) && requested == old(requested)
    {
      var i := 0;
      while i < |posts|
        invariant 0 <= i <= |posts|
        invariant |cards| == |old(cards)| + i
        invariant cards[..|old(cards)|] == old(cards)
        invariant forall k :: 0 <= k < i ==> cards[|old(cards)| + k] == PostCard(posts[k])
        invariant currentPage == old(currentPage) && requested == old(requested)
        invariant disabled && caption == Loading && hidden == old(hidden) && dataPage == old(dataPage)
      {
        cards := cards + [PostCard(posts[i])];
        i := i + 1;
      }
      disabled := false;
      caption := LoadMore;
      if totalPages.Some? && currentPage >= totalPages.value {
        hidden := true;
      }
      dataPage := Some(currentPage);
    }

    /**
     * The outstanding request failed: the button is enabled again and reads
     * "Try Again"; the cards and the counter stay as they are.
     */
    method Fail()
      requires Valid() && disabled
      modifies this
      ensures Valid()
      ensures !disabled && caption == TryAgain
      ensures cards == old(cards) && currentPage == old(currentPage) && hidden == old(hidden)
      ensures requested == old(requested) && dataPage == old(dataPage)
    {
      disabled := false;
      caption := TryAgain;
    }

    /**
     * The outstanding request settled. A body without `posts` makes the
     * success handler throw before it appends anything, which lands in the
     * failure handler.
     */
    method Settle(response: Response<SearchData>)
      requires Valid() && disabled
      modifies this
      ensures Valid()
      ensures !disabled && currentPage == old(currentPage) && requested == old(requested)
      ensures response.Received? && response.body.posts.Some? ==>
                && caption == LoadMore
                && hidden == (old(hidden) || (totalPages.Some? && currentPage >= totalPages.value))
                && dataPage == Some(currentPage)
                && cards == old(cards) + seq(|response.body.posts.value|, k requires 0 <= k < |response.body.posts.value| =>
                                               PostCard(response.body.posts.value[k]))
      ensures !(response.Received? && response.body.posts.Some?) ==>
                caption == TryAgain && cards == old(cards) && hidden == old(hidden) && dataPage == old(dataPage)
    {
      if response.Received? && response.body.posts.Some? {
        Succeed(response.body.posts.value);
      } else {
        Fail();
      }
    }
  }

  /**
   * After a failed request the counter is not rolled back, so clicking
   * "Try Again" requests the page after the one that failed: with three
   * pages, page 2 fails and the retry asks for page 3.
   */
  method RetryRequestsNextPage() returns (first: Option<int>, retry: Option<int>)
    ensures first == Some(2) && retry == Some(3)
  {
    var button := new LoadMoreButton("cats", Some(3), []);
    first := button.Click();
    button.Fail();
    retry := button.Click();
  }
}
