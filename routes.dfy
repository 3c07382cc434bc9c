/**
 * The decision logic of the blog's route handlers (routes.py) over an
 * in-memory store. A handler's reply is the redirect, form re-render or
 * HTTP abort it ends with; flashed messages, templates and the session
 * itself are outside the model. The logged-in user is the session's user
 * id, looked up in the store as Flask-Login's user loader does.
 */
module Routes {
  import opened Wrappers
  import opened Text

  datatype User = User(id: int, username: string, email: string, passwordHash: string, isAdmin: bool)

  datatype Post = Post(
    id: int,
    title: string,
    content: string,
    summary: string,
    featureImage: string,
    createdAt: int,
    updatedAt: int,
    authorId: int,
    categoryIds: seq<int>)

  datatype Category = Category(id: int, name: string, description: string)

  /** Where a redirect goes; `url_for('index')` is the site root. */
  datatype Target = Index | LoginForm | RegisterForm | AdminPanel | PostPage(postId: int) | LocalPath(path: string)

  datatype Reply = Redirect(to: Target) | RenderCreatePost | Abort(status: int)

  /** Position of the first element satisfying `p`, if any. */
  function Find<T>(s: seq<T>, p: T -> bool): (r: Option<nat>)
    ensures r.Some? ==> r.value < |s| && p(s[r.value])
    ensures r.Some? ==> forall k :: 0 <= k < r.value ==> !p(s[k])
    ensures r.None? ==> forall k :: 0 <= k < |s| ==> !p(s[k])
  {
    if s == [] then None
    else if p(s[0]) then Some(0)
    else
      match Find(s[1..], p)
      case None => None
      case Some(k) => Some(k + 1)
  }

  /** `current_user`: the stored user whose id the session holds, if there is one. */
  function CurrentUser(users: seq<User>, session: Option<int>): (u: Option<User>)
    ensures u.Some? ==> session.Some? && u.value in users && u.value.id == session.value
    ensures u.None? ==> session.None? || forall k :: 0 <= k < |users| ==> users[k].id != session.value
  {
    if session.None? then None
    else
      match Find(users, (x: User) => x.id == session.value)
      case None => None
      case Some(k) => Some(users[k])
  }

  predicate UsernameTaken(users: seq<User>, username: string) {
    exists k :: 0 <= k < |users| && users[k].username == username
  }

  predicate EmailTaken(users: seq<User>, email: string) {
    exists k :: 0 <= k < |users| && users[k].email == email
  }

  predicate HasUser(users: seq<User>, id: int) {
    exists k :: 0 <= k < |users| && users[k].id == id
  }

  predicate HasCategory(categories: seq<Category>, id: int) {
    exists k :: 0 <= k < |categories| && categories[k].id == id
  }

  predicate CategoryNameTaken(categories: seq<Category>, name: string) {
    exists k :: 0 <= k < |categories| && categories[k].name == name
  }

  /** `Post.query.get_or_404`: the position of the post with this id. */
  function PostIndex(posts: seq<Post>, id: int): (r: Option<nat>)
    ensures r.Some? ==> r.value < |posts| && posts[r.value].id == id
    ensures r.None? ==> forall k :: 0 <= k < |posts| ==> posts[k].id != id
  {
    Find(posts, (p: Post) => p.id == id)
  }

  function CategoryIndex(categories: seq<Category>, id: int): (r: Option<nat>)
    ensures r.Some? ==> r.value < |categories| && categories[r.value].id == id
    ensures r.None? <==> !HasCategory(categories, id)
  {
    Find(categories, (c: Category) => c.id == id)
  }

  /** Only the post's author or an administrator may edit or delete it. */
  predicate MayModify(user: User, post: Post)
    ensures user.isAdmin ==> MayModify(user, post)
    ensures !user.isAdmin ==> (MayModify(user, post) <==> post.authorId == user.id)
  {
    post.authorId == user.id || user.isAdmin
  }

  /**
   * The submitted category ids that name a stored category, in submitted
   * order; unknown ids are skipped.
   */
  function Resolvable(ids: seq<int>, categories: seq<Category>): (r: seq<int>)
    ensures |r| <= |ids|
    ensures |ids| == 1 ==> r == if HasCategory(categories, ids[0]) then ids else []
    ensures forall x :: x in r <==> x in ids && HasCategory(categories, x)
  {
    if ids == [] then []
    else
      var last := ids[|ids| - 1];
      assert ids == ids[..|ids| - 1] + [last];
      Resolvable(ids[..|ids| - 1], categories) + (if HasCategory(categories, last) then [last] else [])
  }

  /**
   * Resolving ids one after another: the ids resolved from `a + b` are those
   * resolved from `a` followed by those resolved from `b`, so with the
   * single-id case every id keeps its submitted position.
   */
  lemma {:induction false} ResolvableAppend(a: seq<int>, b: seq<int>, categories: seq<Category>)
    ensures Resolvable(a + b, categories) == Resolvable(a, categories) + Resolvable(b, categories)
  {
    if b == [] {
      assert a + b == a;
    } else {
      var init, last := b[..|b| - 1], b[|b| - 1];
      var kept := if HasCategory(categories, last) then [last] else [];
      ResolvableAppend(a, init, categories);
      assert (a + b)[..|a + b| - 1] == a + init;
      assert (a + b)[|a + b| - 1] == last;
      assert Resolvable(a + b, categories) == Resolvable(a + init, categories) + kept;
      assert Resolvable(b, categories) == Resolvable(init, categories) + kept;
    }
  }

  // ---------------------------------------------------------------------
  // Login and the `next` parameter
  // ---------------------------------------------------------------------

  /**
   * A path that a browser resolves against another host: "//host/..." or
   * "/\host/...". URL parsers drop ASCII tab, LF and CR before parsing, so
   * "/\t/host" leaves the site as well; `SameSitePath` rules those out.
   */
  predicate LeavesSite(path: string) {
    |path| >= 2 && path[0] == '/' && (path[1] == '/' || path[1] == '\\')
  }

  /**
   * A path on this site: it starts with '/', does not leave the site, and has
   * no tab, LF or CR that URL parsing would drop.
   */
  predicate SameSitePath(path: string) {
    && path != "" && path[0] == '/' && !LeavesSite(path)
    && forall k :: 0 <= k < |path| ==> path[k] != '\t' && path[k] != '\n' && path[k] != '\r'
  }

  /** The `next` check as written: any non-empty value starting with '/' is followed. */
  function AsWrittenNextPage(next: Option<string>): (target: Target)
    ensures next.Some? && next.value != "" && next.value[0] == '/' ==> target == LocalPath(next.value)
    ensures !(next.Some? && next.value != "" && next.value[0] == '/') ==> target == Index
  {
    if next.Some? && StartsWith(next.value, "/") then LocalPath(next.value) else Index
  }

  /** The check as written sends the user to another host for `next=//evil.example`. */
  lemma AsWrittenNextPageLeavesSite()
    ensures AsWrittenNextPage(Some("//evil.example")) == LocalPath("//evil.example")
    ensures LeavesSite("//evil.example")
  {
  }

  /**
   * `next=/%09/evil.example` arrives as "/\t/evil.example", which URL parsing
   * turns into "//evil.example": the check as written follows it, the
   * corrected check does not.
   */
  lemma TabbedNextPage()
    ensures AsWrittenNextPage(Some("/\t/evil.example")) == LocalPath("/\t/evil.example")
    ensures SafeNextPage(Some("/\t/evil.example")) == Index
  {
    assert "/\t/evil.example"[1] == '\t';
  }

  /**
   * The corrected check: `next` is followed exactly when it is a path on
   * this site; anything else goes to the index.
   */
  function SafeNextPage(next: Option<string>): (target: Target)
    ensures target.LocalPath? ==> SameSitePath(target.path)
    ensures next.Some? && SameSitePath(next.value) ==> target == LocalPath(next.value)
    ensures !(next.Some? && SameSitePath(next.value)) ==> target == Index
  {
    if next.Some? && SameSitePath(next.value) then LocalPath(next.value) else Index
  }

  /**
   * `login` (POST) as written: an authenticated user goes to the index; an
   * unknown username or a wrong password goes back to the login form; a
   * successful login goes to `next` when it starts with '/', else to the
   * index. `checkPassword` stands for werkzeug's hash check.
   */
  function Login(users: seq<User>, session: Option<int>, username: string, password: string,
                 checkPassword: (string, string) -> bool, next: Option<string>): (reply: Reply)
    ensures CurrentUser(users, session).Some? ==> reply == Redirect(Index)
    ensures CurrentUser(users, session).None? && !UsernameTaken(users, username) ==> reply == Redirect(LoginForm)
    ensures CurrentUser(users, session).None? && UsernameTaken(users, username) ==>
              exists k :: 0 <= k < |users| && users[k].username == username &&
                if checkPassword(users[k].passwordHash, password)
                then reply == Redirect(AsWrittenNextPage(next))
                else reply == Redirect(LoginForm)
  {
    if CurrentUser(users, session).Some? then Redirect(Index)
    else
      match Find(users, (u: User) => u.username == username)
      case None => Redirect(LoginForm)
      case Some(k) =>
        if checkPassword(users[k].passwordHash, password) then Redirect(AsWrittenNextPage(next))
        else Redirect(LoginForm)
  }

  /**
   * `login` with the corrected `next` check: the same outcomes, except that
   * a successful login follows `next` only when it is a path on this site,
   * so a login never redirects to another host.
   */
  function CorrectedLogin(users: seq<User>, session: Option<int>, username: string, password: string,
                          checkPassword: (string, string) -> bool, next: Option<string>): (reply: Reply)
    ensures CurrentUser(users, session).Some? ==> reply == Redirect(Index)
    ensures CurrentUser(users, session).None? && !UsernameTaken(users, username) ==> reply == Redirect(LoginForm)
    ensures CurrentUser(users, session).None? && UsernameTaken(users, username) ==>
              exists k :: 0 <= k < |users| && users[k].username == username &&
                if checkPassword(users[k].passwordHash, password)
                then reply == Redirect(SafeNextPage(next))
                else reply == Redirect(LoginForm)
    ensures reply.Redirect? && reply.to.LocalPath? ==> SameSitePath(reply.to.path)
  {
    if CurrentUser(users, session).Some? then Redirect(Index)
    else
      match Find(users, (u: User) => u.username == username)
      case None => Redirect(LoginForm)
      case Some(k) =>
        if checkPassword(users[k].passwordHash, password) then Redirect(SafeNextPage(next))
        else Redirect(LoginForm)
  }

  /**
   * With correct credentials and `next=//evil.example`, the login as written
   * redirects to another host; the corrected login goes to the index.
   */
  lemma LoginFollowsOffSiteNext()
    ensures var users := [User(1, "ann", "ann@example.com", "hash", false)];
            var check := (h: string, p: string) => true;
            && Login(users, None, "ann", "secret", check, Some("//evil.example")) == Redirect(LocalPath("//evil.example"))
            && CorrectedLogin(users, None, "ann", "secret", check, Some("//evil.example")) == Redirect(Index)
  {
    AsWrittenNextPageLeavesSite();
  }

  // ---------------------------------------------------------------------
  // Search: SQL `ilike` on SQLite and newest-first ordering
  // ---------------------------------------------------------------------

  /**
   * SQL `LIKE` without an escape character: '%' matches any run of
   * characters, '_' any single character, every other character itself.
   */
  predicate Like(s: string, pattern: string)
    ensures NoWildcards(pattern) ==> (Like(s, pattern) <==> s == pattern)
    decreases |s| + |pattern|
  {
    if pattern == [] then s == []
    else if pattern[0] == '%' then Like(s, pattern[1..]) || (s != [] && Like(s[1..], pattern))
    else s != [] && (pattern[0] == '_' || s[0] == pattern[0]) && Like(s[1..], pattern[1..])
  }

  predicate NoWildcards(q: string) {
    forall k :: 0 <= k < |q| ==> q[k] != '%' && q[k] != '_'
  }

  lemma {:induction false} LikeAnything(s: string)
    ensures Like(s, "%")
  {
    if s != [] {
      LikeAnything(s[1..]);
    }
  }

  /** `q%` matches exactly the strings that start with a wildcard-free `q`. */
  lemma {:induction false} LikePrefix(s: string, q: string)
    requires NoWildcards(q)
    ensures Like(s, q + "%") <==> StartsWith(s, q)
  {
    if q == [] {
      LikeAnything(s);
      assert q + "%" == "%";
    } else {
      assert (q + "%")[1..] == q[1..] + "%";
      if s != [] {
        LikePrefix(s[1..], q[1..]);
        if StartsWith(s, q) {
          assert s[1..][..|q| - 1] == s[..|q|][1..];
        }
        if s[0] == q[0] && StartsWith(s[1..], q[1..]) {
          assert s[..|q|] == [s[0]] + s[1..][..|q| - 1];
        }
      }
    }
  }

  /** `%q%` matches exactly the strings that contain a wildcard-free `q`. */
  lemma {:induction false} LikeContains(s: string, q: string)
    requires NoWildcards(q)
    ensures Like(s, "%" + q + "%") <==> Contains(s, q)
  {
    assert ("%" + q + "%")[1..] == q + "%";
    LikePrefix(s, q);
    if s != [] {
      LikeContains(s[1..], q);
    }
  }

  /** `column.ilike('%q%')` as SQLite evaluates it: `lower(column) LIKE lower('%q%')`. */
  predicate IlikeContains(text: string, q: string) {
    Like(Lower(text), Lower("%" + q + "%"))
  }

  /**
   * The search filter: the title or the content matches. For a query without
   * wildcards that is a case-insensitive substring test on either.
   */
  predicate PostMatches(post: Post, q: string)
    ensures NoWildcards(q) ==>
              (PostMatches(post, q) <==>
                 Contains(Lower(post.title), Lower(q)) || Contains(Lower(post.content), Lower(q)))
  {
    if NoWildcards(q) then
      IlikeContainsIff(post.title, q);
      IlikeContainsIff(post.content, q);
      IlikeContains(post.title, q) || IlikeContains(post.content, q)
    else
      IlikeContains(post.title, q) || IlikeContains(post.content, q)
  }

  /** For a query without wildcards, `ilike` is a case-insensitive substring test. */
  lemma IlikeContainsIff(text: string, q: string)
    requires NoWildcards(q)
    ensures IlikeContains(text, q) <==> Contains(Lower(text), Lower(q))
  {
    LowerAppend("%" + q, "%");
    LowerAppend("%", q);
    assert Lower("%") == "%";
    assert NoWildcards(Lower(q));
    LikeContains(Lower(text), Lower(q));
  }

  /** The posts that match, in store order. */
  function Matching(posts: seq<Post>, q: string): (r: seq<Post>)
    ensures forall p :: p in r <==> p in posts && PostMatches(p, q)
    ensures multiset(r) <= multiset(posts)
  {
    if posts == [] then []
    else
      assert posts == [posts[0]] + posts[1..];
      (if PostMatches(posts[0], q) then [posts[0]] else []) + Matching(posts[1..], q)
  }

  /** Each post is at least as new as the one after it. */
  predicate NewestFirst(posts: seq<Post>) {
    forall i :: 0 < i < |posts| ==> posts[i - 1].createdAt >= posts[i].createdAt
  }

  /** Neighbour-wise order is order between any two positions. */
  lemma {:induction false} NewestFirstPairwise(posts: seq<Post>)
    requires NewestFirst(posts)
    ensures forall i, j :: 0 <= i < j < |posts| ==> posts[i].createdAt >= posts[j].createdAt
  {
    if |posts| > 1 {
      var tail := posts[1..];
      NewestFirstPairwise(tail);
      forall i, j | 0 <= i < j < |posts|
        ensures posts[i].createdAt >= posts[j].createdAt
      {
        if i == 0 && j > 1 {
          assert posts[1] == tail[0] && posts[j] == tail[j - 1];
        } else if i > 0 {
          assert posts[i] == tail[i - 1] && posts[j] == tail[j - 1];
        }
      }
    }
  }

  function InsertByDate(p: Post, sorted: seq<Post>): (r: seq<Post>)
    requires NewestFirst(sorted)
    ensures NewestFirst(r)
    ensures multiset(r) == multiset(sorted) + multiset{p}
    ensures |r| == |sorted| + 1
    ensures r[0] == if sorted == [] || p.createdAt >= sorted[0].createdAt then p else sorted[0]
  {
    if sorted == [] || p.createdAt >= sorted[0].createdAt then [p] + sorted
    else
      var head, tail := sorted[0], sorted[1..];
      var rest := InsertByDate(p, tail);
      assert sorted == [head] + tail;
      [head] + rest
  }

  /** `order_by(Post.created_at.desc())` */
  function SortNewestFirst(posts: seq<Post>): (r: seq<Post>)
    ensures NewestFirst(r)
    ensures multiset(r) == multiset(posts)
  {
    if posts == [] then []
    else
      assert posts == [posts[0]] + posts[1..];
      InsertByDate(posts[0], SortNewestFirst(posts[1..]))
  }

  datatype SearchOutcome = RedirectHome | Results(query: string, posts: seq<Post>)

  /**
   * `search`: an empty `q` redirects to the index without querying;
   * otherwise the result is every post whose title or content matches,
   * each at most as often as it is stored, newest first.
   */
  function Search(posts: seq<Post>, q: string): (r: SearchOutcome)
    ensures q == "" <==> r == RedirectHome
    ensures r.Results? ==> r.query == q
    ensures r.Results? ==> forall i, j :: 0 <= i < j < |r.posts| ==> r.posts[i].createdAt >= r.posts[j].createdAt
    ensures r.Results? ==> forall p :: p in r.posts <==> p in posts && PostMatches(p, q)
    ensures r.Results? ==> multiset(r.posts) <= multiset(posts)
  {
    if q == "" then RedirectHome
    else
      var found := Matching(posts, q);
      var sorted := SortNewestFirst(found);
      NewestFirstPairwise(sorted);
      assert forall p :: p in sorted <==> p in multiset(found);
      Results(q, sorted)
  }

  predicate UsersWellFormed(users: seq<User>, nextId: int) {
    && (forall i, j :: 0 <= i < j < |users| ==>
          users[i].id != users[j].id && users[i].username != users[j].username && users[i].email != users[j].email)
    && (forall i :: 0 <= i < |users| ==> users[i].id < nextId)
  }

  predicate PostsWellFormed(posts: seq<Post>, nextId: int) {
    && (forall i, j :: 0 <= i < j < |posts| ==> posts[i].id != posts[j].id)
    && (forall i :: 0 <= i < |posts| ==> posts[i].id < nextId)
  }

  predicate CategoriesWellFormed(categories: seq<Category>, nextId: int) {
    && (forall i, j :: 0 <= i < j < |categories| ==>
          categories[i].id != categories[j].id && categories[i].name != categories[j].name)
    && (forall i :: 0 <= i < |categories| ==> categories[i].id < nextId)
  }

  /** A post's author and categories exist. */
  predicate PostLinked(post: Post, users: seq<User>, categories: seq<Category>) {
    HasUser(users, post.authorId) && forall c :: c in post.categoryIds ==> HasCategory(categories, c)
  }

  predicate PostsLinked(posts: seq<Post>, users: seq<User>, categories: seq<Category>) {
    forall p :: p in posts ==> PostLinked(p, users, categories)
  }

  /** Links stay valid when the posts are a selection of linked posts and users and categories only grow. */
  lemma LinkedSubset(posts: seq<Post>, posts': seq<Post>, users: seq<User>, users': seq<User>,
                     categories: seq<Category>, categories': seq<Category>)
    requires PostsLinked(posts, users, categories)
    requires forall p :: p in posts' ==> p in posts
    requires forall k :: 0 <= k < |users| ==> users[k] in users'
    requires forall k :: 0 <= k < |categories| ==> categories[k] in categories'
    ensures PostsLinked(posts', users', categories')
  {
    forall p | p in posts' ensures PostLinked(p, users', categories') {
      var j :| 0 <= j < |users| && users[j].id == p.authorId;
      var j' :| 0 <= j' < |users'| && users'[j'] == users[j];
      forall c | c in p.categoryIds ensures HasCategory(categories', c) {
        var m :| 0 <= m < |categories| && categories[m].id == c;
        var m' :| 0 <= m' < |categories'| && categories'[m'] == categories[m];
      }
    }
  }

  /** Removing the element at `k` keeps the others distinct. */
  lemma PostsAfterRemove(posts: seq<Post>, k: nat, nextId: int)
    requires PostsWellFormed(posts, nextId) && k < |posts|
    ensures PostsWellFormed(posts[..k] + posts[k + 1..], nextId)
    ensures forall p :: p in posts[..k] + posts[k + 1..] ==> p in posts
  {
    var r := posts[..k] + posts[k + 1..];
    forall i | 0 <= i < |r| ensures r[i] == posts[if i < k then i else i + 1] {}
  }

  lemma CategoriesAfterRemove(categories: seq<Category>, k: nat, nextId: int)
    requires CategoriesWellFormed(categories, nextId) && k < |categories|
    ensures CategoriesWellFormed(categories[..k] + categories[k + 1..], nextId)
  {
    var r := categories[..k] + categories[k + 1..];
    forall i | 0 <= i < |r| ensures r[i] == categories[if i < k then i else i + 1] {}
  }

  /** Every post without its links to category `id`. */
  function Unlink(posts: seq<Post>, id: int): (r: seq<Post>)
    ensures |r| == |posts|
    ensures forall i :: 0 <= i < |posts| ==> r[i] == posts[i].(categoryIds := Without(posts[i].categoryIds, id))
  {
    seq(|posts|, i requires 0 <= i < |posts| => posts[i].(categoryIds := Without(posts[i].categoryIds, id)))
  }

  /** Deleting the category at `k` and unlinking it from every post keeps the posts well formed and linked. */
  lemma UnlinkKeepsStoreValid(posts: seq<Post>, users: seq<User>, categories: seq<Category>, k: nat, nextId: int)
    requires k < |categories|
    requires PostsWellFormed(posts, nextId) && PostsLinked(posts, users, categories)
    ensures PostsWellFormed(Unlink(posts, categories[k].id), nextId)
    ensures PostsLinked(Unlink(posts, categories[k].id), users, categories[..k] + categories[k + 1..])
  {
    var id := categories[k].id;
    var remaining := categories[..k] + categories[k + 1..];
    var after := Unlink(posts, id);
    forall p | p in after ensures PostLinked(p, users, remaining) {
      var i :| 0 <= i < |after| && after[i] == p;
      assert posts[i] in posts;
      forall c | c in p.categoryIds ensures HasCategory(remaining, c) {
        var j :| 0 <= j < |categories| && categories[j].id == c;
        if j < k {
          assert remaining[j] == categories[j];
        } else {
          assert remaining[j - 1] == categories[j];
        }
      }
    }
  }

  /**
   * A post after `edit_post` assigned its columns and replaced its category
   * links. `updated_at` is an `onupdate` column: it is stamped only when the
   * flush writes the post row, which happens when a column value changed;
   * new category links alone touch only the association table.
   */
  function Edited(post: Post, title: string, content: string, summary: string, featureImage: string,
                  categoryIds: seq<int>, now: int): (r: Post)
    ensures r.id == post.id && r.authorId == post.authorId && r.createdAt == post.createdAt
    ensures r.title == title && r.content == content && r.summary == summary && r.featureImage == featureImage
    ensures r.categoryIds == categoryIds
    ensures (post.title, post.content, post.summary, post.featureImage) != (title, content, summary, featureImage) ==>
              r.updatedAt == now
    ensures (post.title, post.content, post.summary, post.featureImage) == (title, content, summary, featureImage) ==>
              r.updatedAt == post.updatedAt
  {
    var columnsChanged := post.title != title || post.content != content || post.summary != summary
                          || post.featureImage != featureImage;
    post.(title := title, content := content, summary := summary, featureImage := featureImage,
          updatedAt := if columnsChanged then now else post.updatedAt, categoryIds := categoryIds)
  }

  // ---------------------------------------------------------------------
  // The store and the handlers that change it
  // ---------------------------------------------------------------------

  /** The database: users, posts and categories, with the next free id of each table. */
  class Database {
    var users: seq<User>
    var posts: seq<Post>
    var categories: seq<Category>
    var nextUserId: int
    var nextPostId: int
    var nextCategoryId: int

    /**
     * Ids are unique and below the next free id; usernames, e-mail addresses
     * and category names are unique; every post's author and categories exist.
     */
    ghost predicate Valid()
      reads this
    {
      && UsersWellFormed(users, nextUserId)
      && PostsWellFormed(posts, nextPostId)
      && CategoriesWellFormed(categories, nextCategoryId)
      && PostsLinked(posts, users, categories)
    }

    constructor ()
      ensures Valid() && users == [] && posts == [] && categories == []
    {
      users, posts, categories := [], [], [];
      nextUserId, nextPostId, nextCategoryId := 1, 1, 1;
    }

    /**
     * `register` (POST): an authenticated user goes to the index; a taken
     * username, then a taken e-mail address, sends the form back; otherwise
     * exactly one user is added, an administrator exactly when the store had
     * no user before. `passwordHash` is werkzeug's hash of the password.
     */
    method Register(session: Option<int>, username: string, email: string, passwordHash: string)
      returns (reply: Reply)
      requires Valid()
      modifies this
      ensures Valid()
      ensures posts == old(posts) && categories == old(categories)
      ensures nextPostId == old(nextPostId) && nextCategoryId == old(nextCategoryId)
      ensures CurrentUser(old(users), session).Some? ==>
                reply == Redirect(Index) && users == old(users) && nextUserId == old(nextUserId)
      ensures CurrentUser(old(users), session).None? && UsernameTaken(old(users), username) ==>
                reply == Redirect(RegisterForm) && users == old(users) && nextUserId == old(nextUserId)
      ensures CurrentUser(old(users), session).None? && !UsernameTaken(old(users), username)
              && EmailTaken(old(users), email) ==>
                reply == Redirect(RegisterForm) && users == old(users) && nextUserId == old(nextUserId)
      ensures CurrentUser(old(users), session).None? && !UsernameTaken(old(users), username)
              && !EmailTaken(old(users), email) ==>
                && reply == Redirect(LoginForm)
                && users == old(users) + [User(old(nextUserId), username, email, passwordHash, |old(users)| == 0)]
                && nextUserId == old(nextUserId) + 1
    {
      if CurrentUser(users, session).Some? {
        return Redirect(Index);
      }
      if Find(users, (u: User) => u.username == username).Some? {
        return Redirect(RegisterForm);
      }
      if Find(users, (u: User) => u.email == email).Some? {
        return Redirect(RegisterForm);
      }
      var user := User(nextUserId, username, email, passwordHash, |users| == 0);
      LinkedSubset(posts, posts, users, users + [user], categories, categories);
      users := users + [user];
      nextUserId := nextUserId + 1;
      reply := Redirect(LoginForm);
    }

    /** The `for cat_id in category_ids` loop: the submitted ids that name a stored category. */
    method ResolveCategories(ids: seq<int>) returns (resolved: seq<int>)
      ensures resolved == Resolvable(ids, categories)
    {
      resolved := [];
      for i := 0 to |ids|
        invariant resolved == Resolvable(ids[..i], categories)
      {
        assert ids[..i + 1][..i] == ids[..i];
        var found := Find(categories, (c: Category) => c.id == ids[i]);
        if found.Some? {
          resolved := resolved + [ids[i]];
        }
      }
      assert ids[..|ids|] == ids;
    }

    /**
     * `create_post` (POST, logged in): a missing title or content re-renders
     * the form with nothing stored; otherwise one post by the current user
     * is added, carrying the submitted category ids that resolve.
     */
    method CreatePost(session: Option<int>, title: string, content: string, summary: string,
                      featureImage: string, categoryIds: seq<int>, now: int)
      returns (reply: Reply)
      requires Valid()
      modifies this
      ensures Valid()
      ensures users == old(users) && categories == old(categories)
      ensures nextUserId == old(nextUserId) && nextCategoryId == old(nextCategoryId)
      ensures CurrentUser(old(users), session).None? ==>
                reply == Redirect(LoginForm) && posts == old(posts) && nextPostId == old(nextPostId)
      ensures CurrentUser(old(users), session).Some? && (title == "" || content == "") ==>
                reply == RenderCreatePost && posts == old(posts) && nextPostId == old(nextPostId)
      ensures CurrentUser(old(users), session).Some? && title != "" && content != "" ==>
                && reply == Redirect(PostPage(old(nextPostId)))
                && posts == old(posts) + [Post(old(nextPostId), title, content, summary, featureImage, now, now,
                                               CurrentUser(old(users), session).value.id,
                                               Resolvable(categoryIds, categories))]
                && nextPostId == old(nextPostId) + 1
    {
      var user := CurrentUser(users, session);
      if user.None? {
        return Redirect(LoginForm);
      }
      if title == "" || content == "" {
        return RenderCreatePost;
      }
      var resolved := ResolveCategories(categoryIds);
      var post := Post(nextPostId, title, content, summary, featureImage, now, now, user.value.id, resolved);
      var j :| 0 <= j < |users| && users[j] == user.value;
      assert PostLinked(post, users, categories);
      posts := posts + [post];
      nextPostId := nextPostId + 1;
      reply := Redirect(PostPage(post.id));
    }

    /**
     * `edit_post` (POST, logged in): an unknown post is a 404; a user who is
     * neither its author nor an administrator gets a 403 and nothing changes;
     * otherwise the post's fields are overwritten, its category list is
     * replaced by the submitted ids that resolve, and `updated_at` moves to
     * `now` only when a column value changed.
     */
    method EditPost(session: Option<int>, postId: int, title: string, content: string, summary: string,
                    featureImage: string, categoryIds: seq<int>, now: int)
      returns (reply: Reply)
      requires Valid()
      modifies this
      ensures Valid()
      ensures users == old(users) && categories == old(categories)
      ensures nextUserId == old(nextUserId) && nextPostId == old(nextPostId) && nextCategoryId == old(nextCategoryId)
      ensures CurrentUser(old(users), session).None? ==> reply == Redirect(LoginForm) && posts == old(posts)
      ensures CurrentUser(old(users), session).Some? && PostIndex(old(posts), postId).None? ==>
                reply == Abort(404) && posts == old(posts)
      ensures CurrentUser(old(users), session).Some? && PostIndex(old(posts), postId).Some?
              && !MayModify(CurrentUser(old(users), session).value, old(posts)[PostIndex(old(posts), postId).value]) ==>
                reply == Abort(403) && posts == old(posts)
      ensures CurrentUser(old(users), session).Some? && PostIndex(old(posts), postId).Some?
              && MayModify(CurrentUser(old(users), session).value, old(posts)[PostIndex(old(posts), postId).value]) ==>
                var k := PostIndex(old(posts), postId).value;
                && reply == Redirect(PostPage(postId))
                && posts == old(posts)[k := Edited(old(posts)[k], title, content, summary, featureImage,
                                                   Resolvable(categoryIds, categories), now)]
    {
      var user := CurrentUser(users, session);
      if user.None? {
        return Redirect(LoginForm);
      }
      var found := PostIndex(posts, postId);
      if found.None? {
        return Abort(404);
      }
      var k := found.value;
      if !MayModify(user.value, posts[k]) {
        return Abort(403);
      }
      var resolved := ResolveCategories(categoryIds);
      var post := Edited(posts[k], title, content, summary, featureImage, resolved, now);
      assert posts[k] in posts;
      assert PostLinked(post, users, categories);
      posts := posts[k := post];
      reply := Redirect(PostPage(postId));
    }

    /**
     * `delete_post` (logged in): an unknown post is a 404; a user who is
     * neither its author nor an administrator gets a 403 and nothing changes;
     * otherwise exactly that post is removed.
     */
    method DeletePost(session: Option<int>, postId: int) returns (reply: Reply)
      requires Valid()
      modifies this
      ensures Valid()
      ensures users == old(users) && categories == old(categories)
      ensures nextUserId == old(nextUserId) && nextPostId == old(nextPostId) && nextCategoryId == old(nextCategoryId)
      ensures CurrentUser(old(users), session).None? ==> reply == Redirect(LoginForm) && posts == old(posts)
      ensures CurrentUser(old(users), session).Some? && PostIndex(old(posts), postId).None? ==>
                reply == Abort(404) && posts == old(posts)
      ensures CurrentUser(old(users), session).Some? && PostIndex(old(posts), postId).Some?
              && !MayModify(CurrentUser(old(users), session).value, old(posts)[PostIndex(old(posts), postId).value]) ==>
                reply == Abort(403) && posts == old(posts)
      ensures CurrentUser(old(users), session).Some? && PostIndex(old(posts), postId).Some?
              && MayModify(CurrentUser(old(users), session).value, old(posts)[PostIndex(old(posts), postId).value]) ==>
                var k := PostIndex(old(posts), postId).value;
                reply == Redirect(Index) && posts == old(posts)[..k] + old(posts)[k + 1..]
    {
      var user := CurrentUser(users, session);
      if user.None? {
        return Redirect(LoginForm);
      }
      var found := PostIndex(posts, postId);
      if found.None? {
        return Abort(404);
      }
      var k := found.value;
      if !MayModify(user.value, posts[k]) {
        return Abort(403);
      }
      PostsAfterRemove(posts, k, nextPostId);
      LinkedSubset(posts, posts[..k] + posts[k + 1..], users, users, categories, categories);
      posts := posts[..k] + posts[k + 1..];
      reply := Redirect(Index);
    }

    /**
     * `create_category` (logged in): a non-administrator gets a 403; an
     * empty name or one already in use sends the user back to the admin
     * panel with nothing stored; otherwise exactly one category is added.
     */
    method CreateCategory(session: Option<int>, name: string, description: string) returns (reply: Reply)
      requires Valid()
      modifies this
      ensures Valid()
      ensures users == old(users) && posts == old(posts)
      ensures nextUserId == old(nextUserId) && nextPostId == old(nextPostId)
      ensures CurrentUser(old(users), session).None? ==>
                reply == Redirect(LoginForm) && categories == old(categories) && nextCategoryId == old(nextCategoryId)
      ensures CurrentUser(old(users), session).Some? && !CurrentUser(old(users), session).value.isAdmin ==>
                reply == Abort(403) && categories == old(categories) && nextCategoryId == old(nextCategoryId)
      ensures CurrentUser(old(users), session).Some? && CurrentUser(old(users), session).value.isAdmin
              && (name == "" || CategoryNameTaken(old(categories), name)) ==>
                reply == Redirect(AdminPanel) && categories == old(categories) && nextCategoryId == old(nextCategoryId)
      ensures CurrentUser(old(users), session).Some? && CurrentUser(old(users), session).value.isAdmin
              && name != "" && !CategoryNameTaken(old(categories), name) ==>
                && reply == Redirect(AdminPanel)
                && categories == old(categories) + [Category(old(nextCategoryId), name, description)]
                && nextCategoryId == old(nextCategoryId) + 1
    {
      var user := CurrentUser(users, session);
      if user.None? {
        return Redirect(LoginForm);
      }
      if !user.value.isAdmin {
        return Abort(403);
      }
      if name == "" {
        return Redirect(AdminPanel);
      }
      if Find(categories, (c: Category) => c.name == name).Some? {
        return Redirect(AdminPanel);
      }
      var category := Category(nextCategoryId, name, description);
      LinkedSubset(posts, posts, users, users, categories, categories + [category]);
      categories := categories + [category];
      nextCategoryId := nextCategoryId + 1;
      reply := Redirect(AdminPanel);
    }

    /**
     * `delete_category` (logged in): a non-administrator gets a 403, an
     * unknown category a 404; otherwise the category is removed, and with
     * it every post's link to it.
     */
    method DeleteCategory(session: Option<int>, categoryId: int) returns (reply: Reply)
      requires Valid()
      modifies this
      ensures Valid()
      ensures users == old(users)
      ensures nextUserId == old(nextUserId) && nextPostId == old(nextPostId) && nextCategoryId == old(nextCategoryId)
      ensures CurrentUser(old(users), session).None? ==>
                reply == Redirect(LoginForm) && categories == old(categories) && posts == old(posts)
      ensures CurrentUser(old(users), session).Some? && !CurrentUser(old(users), session).value.isAdmin ==>
                reply == Abort(403) && categories == old(categories) && posts == old(posts)
      ensures CurrentUser(old(users), session).Some? && CurrentUser(old(users), session).value.isAdmin
              && !HasCategory(old(categories), categoryId) ==>
                reply == Abort(404) && categories == old(categories) && posts == old(posts)
      ensures CurrentUser(old(users), session).Some? && CurrentUser(old(users), session).value.isAdmin
              && HasCategory(old(categories), categoryId) ==>
                var k := CategoryIndex(old(categories), categoryId).value;
                && reply == Redirect(AdminPanel)
                && categories == old(categories)[..k] + old(categories)[k + 1..]
                && posts == Unlink(old(posts), categoryId)
    {
      var user := CurrentUser(users, session);
      if user.None? {
        return Redirect(LoginForm);
      }
      if !user.value.isAdmin {
        return Abort(403);
      }
      var found := CategoryIndex(categories, categoryId);
      if found.None? {
        return Abort(404);
      }
      var k := found.value;
      var remaining := categories[..k] + categories[k + 1..];
      var after := Unlink(posts, categoryId);
      CategoriesAfterRemove(categories, k, nextCategoryId);
      UnlinkKeepsStoreValid(posts, users, categories, k, nextPostId);
      posts := after;
      categories := remaining;
      reply := Redirect(AdminPanel);
    }
  }

  /** `s` without any occurrence of `x` (the association rows a deleted category takes with it). */
  function Without(s: seq<int>, x: int): (r: seq<int>)
    ensures forall y :: y in r <==> y in s && y != x
    ensures |r| <= |s|
  {
    if s == [] then []
    else (if s[0] == x then [] else [s[0]]) + Without(s[1..], x)
  }
}
