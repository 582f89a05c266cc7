/**
 * `categorization`: posts sorted by id, each appended to the list of the
 * username its `userId` resolves to. The per-user lists are returned here
 * instead of being written to `<username>.json`.
 */
module PostGrouping {
  import opened Wrappers
  import opened Sequences
  import opened Dicts
  import opened Records
  import opened Identity
  import opened Sorting

  /** `username_posts`: username -> that user's posts, in insertion order. */
  type PostGroups = Dict<string, seq<Record>>

  /** The posts of `posts` that resolve to `username`, in their order in `posts`. */
  function PostsOf(identity: IdentityMap, posts: seq<Record>, username: string): (r: seq<Record>)
    ensures forall p :: p in r ==> p in posts && ReverseLookup(identity, p.userId) == Some(username)
  {
    if posts == [] then []
    else
      var n := |posts| - 1;
      assert posts == posts[..n] + [posts[n]];
      PostsOf(identity, posts[..n], username) +
      (if ReverseLookup(identity, posts[n].userId) == Some(username) then [posts[n]] else [])
  }

  function PostCount(ps: seq<Record>): nat
  {
    |ps|
  }

  /** `username_posts[username].append(post)`, the list created empty on first encounter. */
  function AddPost(groups: PostGroups, username: string, post: Record): PostGroups
  {
    var before := match Get(groups, username) case Some(ps) => ps case None => [];
    Put(groups, username, before + [post])
  }

  /**
   * The loop over already sorted posts: the grouping so far, or `None` once a
   * `userId` does not resolve (the IndexError that ends the whole pass).
   */
  function GroupSorted(identity: IdentityMap, posts: seq<Record>): Option<PostGroups>
  {
    if posts == [] then Some([])
    else
      var n := |posts| - 1;
      match GroupSorted(identity, posts[..n])
      case None => None
      case Some(g) =>
        match ReverseLookup(identity, posts[n].userId)
        case None => None
        case Some(u) => Some(AddPost(g, u, posts[n]))
  }

  /** What `categorization` computes: group the posts sorted by id. */
  function PostsByUser(identity: IdentityMap, posts: seq<Record>): Option<PostGroups>
  {
    GroupSorted(identity, SortById(posts))
  }

  /** The pass fails exactly when some post's `userId` does not resolve. */
  lemma {:induction false} GroupSortedFails(identity: IdentityMap, posts: seq<Record>)
    ensures GroupSorted(identity, posts).None? <==> !AllResolve(identity, posts)
  {
    if posts != [] {
      var n := |posts| - 1;
      GroupSortedFails(identity, posts[..n]);
      AllResolvePrefix(identity, posts);
    }
  }

  /** Each username maps to the posts that resolve to it, and no other key is present. */
  ghost predicate HoldsPostsOf(identity: IdentityMap, posts: seq<Record>, g: PostGroups)
  {
    forall u :: Get(g, u) == if PostsOf(identity, posts, u) == [] then None
                             else Some(PostsOf(identity, posts, u))
  }

  lemma {:induction false} GetAddPost(g: PostGroups, w: string, p: Record, u: string)
    ensures Get(AddPost(g, w, p), u) ==
            if u == w then Some((match Get(g, w) case Some(ps) => ps case None => []) + [p])
            else Get(g, u)
  {
    GetPut(g, w, (match Get(g, w) case Some(ps) => ps case None => []) + [p], u);
  }

  /**
   * When every post resolves, the dict maps each username to the posts that
   * resolve to it, in order, has no other keys, and holds every post once.
   */
  lemma {:induction false} GroupSortedContents(identity: IdentityMap, posts: seq<Record>)
    requires AllResolve(identity, posts)
    ensures GroupSorted(identity, posts).Some?
    ensures NoDuplicates(Keys(GroupSorted(identity, posts).value))
    ensures HoldsPostsOf(identity, posts, GroupSorted(identity, posts).value)
    ensures SumOf(GroupSorted(identity, posts).value, PostCount) == |posts|
  {
    GroupSortedFails(identity, posts);
    if posts != [] {
      var n := |posts| - 1;
      var prefix := posts[..n];
      AllResolvePrefix(identity, posts);
      GroupSortedContents(identity, prefix);
      var g := GroupSorted(identity, prefix).value;
      var w := ReverseLookup(identity, posts[n].userId).value;
      var before := match Get(g, w) case Some(ps) => ps case None => [];
      var g' := AddPost(g, w, posts[n]);
      assert GroupSorted(identity, posts) == Some(g');
      SumOfPut(g, w, before + [posts[n]], PostCount);
      PutNoDuplicates(g, w, before + [posts[n]]);
      forall u ensures Get(g', u) == if PostsOf(identity, posts, u) == [] then None
                                     else Some(PostsOf(identity, posts, u)) {
        GetAddPost(g, w, posts[n], u);
        var old_u := PostsOf(identity, prefix, u);
        assert Get(g, u) == if old_u == [] then None else Some(old_u);
        if u == w {
          assert PostsOf(identity, posts, u) == old_u + [posts[n]];
          assert before == old_u;
        } else {
          assert PostsOf(identity, posts, u) == old_u;
        }
      }
    }
  }

  /** A filter of a sequence ordered by id is ordered by id. */
  lemma {:induction false} PostsOfSorted(identity: IdentityMap, posts: seq<Record>, username: string)
    requires SortedById(posts)
    ensures SortedById(PostsOf(identity, posts, username))
  {
    if posts != [] {
      var n := |posts| - 1;
      assert SortedById(posts[..n]);
      PostsOfSorted(identity, posts[..n], username);
      var prefix := PostsOf(identity, posts[..n], username);
      forall i | 0 <= i < |prefix| ensures prefix[i].id <= posts[n].id {
        assert prefix[i] in prefix;
        var k :| 0 <= k < n && posts[..n][k] == prefix[i];
        assert posts[..n][k] == posts[k];
      }
    }
  }

  /** How often a post occurs in `PostsOf`: as often as in `posts` if it resolves to `username`, else never. */
  lemma {:induction false} PostsOfCount(identity: IdentityMap, posts: seq<Record>, username: string, p: Record)
    ensures multiset(PostsOf(identity, posts, username))[p] ==
            if ReverseLookup(identity, p.userId) == Some(username) then multiset(posts)[p] else 0
  {
    if posts != [] {
      var n := |posts| - 1;
      assert posts == posts[..n] + [posts[n]];
      PostsOfCount(identity, posts[..n], username, p);
    }
  }

  /** Posts with the same multiset of records have the same multiset of posts per user. */
  lemma PostsOfPermutation(identity: IdentityMap, posts: seq<Record>, other: seq<Record>, username: string)
    requires multiset(posts) == multiset(other)
    ensures multiset(PostsOf(identity, posts, username)) == multiset(PostsOf(identity, other, username))
  {
    forall p ensures multiset(PostsOf(identity, posts, username))[p] ==
                     multiset(PostsOf(identity, other, username))[p] {
      PostsOfCount(identity, posts, username, p);
      PostsOfCount(identity, other, username, p);
    }
  }

  /** `categorization` aborts exactly when some post's `userId` does not resolve. */
  lemma CategorizeFailsIff(identity: IdentityMap, posts: seq<Record>)
    ensures PostsByUser(identity, posts).None? <==>
            exists j :: 0 <= j < |posts| && ReverseLookup(identity, posts[j].userId).None?
  {
    var sorted := SortById(posts);
    GroupSortedFails(identity, sorted);
    if !AllResolve(identity, sorted) {
      var i :| 0 <= i < |sorted| && ReverseLookup(identity, sorted[i].userId).None?;
      assert sorted[i] in multiset(posts);
    }
    if exists j :: 0 <= j < |posts| && ReverseLookup(identity, posts[j].userId).None? {
      var j :| 0 <= j < |posts| && ReverseLookup(identity, posts[j].userId).None?;
      assert posts[j] in multiset(sorted);
    }
  }

  lemma SortedResolves(identity: IdentityMap, posts: seq<Record>)
    requires AllResolve(identity, posts)
    ensures AllResolve(identity, SortById(posts))
    ensures PostsByUser(identity, posts).Some?
  {
    var sorted := SortById(posts);
    forall i | 0 <= i < |sorted| ensures ReverseLookup(identity, sorted[i].userId).Some? {
      assert sorted[i] in multiset(posts);
    }
    GroupSortedFails(identity, sorted);
  }

  /**
   * When every post resolves, each username's list is non-empty, ordered by
   * id, and holds exactly the posts that resolve to that username: in sorted
   * order, and as many copies of each as the input has.
   */
  lemma CategorizeGroups(identity: IdentityMap, posts: seq<Record>, g: PostGroups, i: nat)
    requires PostsByUser(identity, posts) == Some(g)
    requires i < |g|
    ensures && g[i].1 != []
            && SortedById(g[i].1)
            && g[i].1 == PostsOf(identity, SortById(posts), g[i].0)
            && multiset(g[i].1) == multiset(PostsOf(identity, posts, g[i].0))
            && (forall p :: p in g[i].1 ==> ReverseLookup(identity, p.userId) == Some(g[i].0))
  {
    var sorted := SortById(posts);
    GroupSortedFails(identity, sorted);
    GroupSortedContents(identity, sorted);
    assert HoldsPostsOf(identity, sorted, g);
    GetEntry(g, i);
    assert Get(g, g[i].0) == if PostsOf(identity, sorted, g[i].0) == [] then None
                             else Some(PostsOf(identity, sorted, g[i].0));
    PostsOfSorted(identity, sorted, g[i].0);
    PostsOfPermutation(identity, sorted, posts, g[i].0);
  }

  /** Each username appears once, and every post is in the list of the username it resolves to. */
  lemma CategorizeCoversAll(identity: IdentityMap, posts: seq<Record>, g: PostGroups, j: nat)
    requires PostsByUser(identity, posts) == Some(g)
    requires j < |posts|
    ensures NoDuplicates(Keys(g))
    ensures exists i :: 0 <= i < |g| && ReverseLookup(identity, posts[j].userId) == Some(g[i].0) && posts[j] in g[i].1
  {
    var sorted := SortById(posts);
    CategorizeFailsIff(identity, posts);
    SortedResolves(identity, posts);
    GroupSortedContents(identity, sorted);
    var u := ReverseLookup(identity, posts[j].userId).value;
    PostsOfCount(identity, sorted, u, posts[j]);
    assert posts[j] in multiset(sorted);
    assert posts[j] in PostsOf(identity, sorted, u);
    assert HoldsPostsOf(identity, sorted, g);
    assert Get(g, u) == Some(PostsOf(identity, sorted, u));
    var i := GetIndex(g, u);
  }

  /** The lists together hold as many posts as the input. */
  /** The usernames the posts resolve to, one per resolving post, in order. */
  function Owners(identity: IdentityMap, posts: seq<Record>): seq<string>
  {
    if posts == [] then []
    else
      var n := |posts| - 1;
      Owners(identity, posts[..n]) +
      (match ReverseLookup(identity, posts[n].userId) case Some(u) => [u] case None => [])
  }

  /** When every post resolves, the usernames are keyed in order of each user's first post. */
  lemma {:induction false} GroupSortedKeys(identity: IdentityMap, posts: seq<Record>)
    requires AllResolve(identity, posts)
    ensures GroupSorted(identity, posts).Some?
    ensures Keys(GroupSorted(identity, posts).value) == Distinct(Owners(identity, posts))
  {
    GroupSortedFails(identity, posts);
    if posts != [] {
      var n := |posts| - 1;
      var p := posts[n];
      AllResolvePrefix(identity, posts);
      GroupSortedKeys(identity, posts[..n]);
      var g := GroupSorted(identity, posts[..n]).value;
      var u := ReverseLookup(identity, p.userId).value;
      var owners := Owners(identity, posts);
      assert owners == Owners(identity, posts[..n]) + [u];
      assert owners[..|owners| - 1] == Owners(identity, posts[..n]);
      var before := match Get(g, u) case Some(ps) => ps case None => [];
      PutKeys(g, u, before + [p]);
    }
  }

  /**
   * `username_posts` is keyed by the distinct usernames in order of each user's
   * first post in id order.
   */
  lemma CategorizeKeys(identity: IdentityMap, posts: seq<Record>, g: PostGroups)
    requires PostsByUser(identity, posts) == Some(g)
    ensures Keys(g) == Distinct(Owners(identity, SortById(posts)))
  {
    CategorizeFailsIff(identity, posts);
    SortedResolves(identity, posts);
    GroupSortedKeys(identity, SortById(posts));
  }

  lemma CategorizeTotal(identity: IdentityMap, posts: seq<Record>, g: PostGroups)
    requires PostsByUser(identity, posts) == Some(g)
    ensures SumOf(g, PostCount) == |posts|
  {
    var sorted := SortById(posts);
    CategorizeFailsIff(identity, posts);
    SortedResolves(identity, posts);
    GroupSortedContents(identity, sorted);
    assert |sorted| == |multiset(sorted)| == |multiset(posts)| == |posts|;
  }

  /** `username_posts[username].append(post)` after creating an empty list on first encounter. */
  lemma CreateThenAppend(g: PostGroups, u: string, p: Record)
    ensures var g1 := if Get(g, u).None? then Put(g, u, []) else g;
            Get(g1, u).Some? && Put(g1, u, Get(g1, u).value + [p]) == AddPost(g, u, p)
  {
    if Get(g, u).None? {
      var g1 := Put(g, u, []);
      GetPut(g, u, [], u);
      assert Get(g1, u).value + [p] == [p];
      PutPut(g, u, [], [p]);
      assert AddPost(g, u, p) == Put(g, u, [] + [p]);
    }
  }

  lemma GroupSortedStep(identity: IdentityMap, posts: seq<Record>, i: nat, g: PostGroups)
    requires i < |posts|
    requires GroupSorted(identity, posts[..i]) == Some(g)
    ensures GroupSorted(identity, posts[..i + 1]) ==
            match ReverseLookup(identity, posts[i].userId)
            case None => None
            case Some(u) => Some(AddPost(g, u, posts[i]))
  {
    assert posts[..i + 1][..i] == posts[..i];
  }

  /** The loop of `categorization` (lookups, list creation, appends) over the sorted posts. */
  method Categorize(identity: IdentityMap, posts: seq<Record>) returns (r: Option<PostGroups>)
    ensures r == PostsByUser(identity, posts)
  {
    var sortedPosts := SortById(posts);
    var usernamePosts: PostGroups := [];
    for i := 0 to |sortedPosts|
      invariant GroupSorted(identity, sortedPosts[..i]) == Some(usernamePosts)
    {
      var post := sortedPosts[i];
      var username := ReverseLookup(identity, post.userId);
      if username.None? {
        GroupSortedFails(identity, sortedPosts);
        return None;
      }
      GroupSortedStep(identity, sortedPosts, i, usernamePosts);
      CreateThenAppend(usernamePosts, username.value, post);
      if Get(usernamePosts, username.value).None? {
        usernamePosts := Put(usernamePosts, username.value, []);
      }
      var list := Get(usernamePosts, username.value).value;
      usernamePosts := Put(usernamePosts, username.value, list + [post]);
    }
    assert sortedPosts[..|sortedPosts|] == sortedPosts;
    return Some(usernamePosts);
  }
}
