/**
 * The blog statistics helper: folds over a list of blog records.
 */
module ListHelper {
  import opened Wrappers

  /** A stored blog post, with the fields the statistics read. */
  datatype Blog = Blog(title: string, author: string, url: string, likes: int)

  /** The object `favoriteBlog` builds: the favourite's title, author and likes only. */
  datatype Favorite = Favorite(title: string, author: string, likes: int)

  /** The JavaScript value `undefined`. */
  datatype Undefined = Undefined

  /** `dummy`: a placeholder statistic that is 1 whatever the list. */
  function Dummy(blogs: seq<Blog>): (r: int)
    ensures r == 1
  {
    1
  }

  // ---------------------------------------------------------------- totalLikes

  /** The reducer of `totalLikes`, run left to right from the accumulator `sum`. */
  function SumFrom(sum: int, blogs: seq<Blog>): int
    decreases |blogs|
  {
    if blogs == [] then sum else SumFrom(sum + blogs[0].likes, blogs[1..])
  }

  /** `totalLikes`: `reduce` from the initial value 0; it is the sum of every blog's likes, so 0 on []. */
  function TotalLikes(blogs: seq<Blog>): (r: int)
    ensures r == LikesSum(blogs)
    ensures blogs == [] ==> r == 0
  {
    SumFromAdds(0, blogs);
    SumFrom(0, blogs)
  }

  /** The mathematical sum of the `likes` fields, defined independently of the fold. */
  function LikesSum(blogs: seq<Blog>): int {
    if blogs == [] then 0 else LikesSum(blogs[..|blogs| - 1]) + blogs[|blogs| - 1].likes
  }

  lemma {:induction false} LikesSumAppend(a: seq<Blog>, b: seq<Blog>)
    ensures LikesSum(a + b) == LikesSum(a) + LikesSum(b)
  {
    if b != [] {
      var ab := a + b;
      LikesSumAppend(a, b[..|b| - 1]);
      assert ab != [] && LikesSum(ab) == LikesSum(ab[..|ab| - 1]) + ab[|ab| - 1].likes;
      assert (a + b)[..|a + b| - 1] == a + b[..|b| - 1];
      assert (a + b)[|a + b| - 1] == b[|b| - 1];
    } else {
      assert a + b == a;
    }
  }

  lemma {:induction false} SumFromAdds(sum: int, blogs: seq<Blog>)
    ensures SumFrom(sum, blogs) == sum + LikesSum(blogs)
    decreases |blogs|
  {
    if blogs != [] {
      SumFromAdds(sum + blogs[0].likes, blogs[1..]);
      LikesSumAppend([blogs[0]], blogs[1..]);
      assert [blogs[0]] + blogs[1..] == blogs;
      assert [blogs[0]][..0] == [];
    }
  }

  /** `totalLikes` distributes over concatenation. */
  lemma TotalLikesAppend(a: seq<Blog>, b: seq<Blog>)
    ensures TotalLikes(a + b) == TotalLikes(a) + TotalLikes(b)
  {
    LikesSumAppend(a, b);
  }

  /** Reordering the blogs does not change `totalLikes`. */
  lemma {:induction false} TotalLikesPermutation(a: seq<Blog>, b: seq<Blog>)
    requires multiset(a) == multiset(b)
    ensures TotalLikes(a) == TotalLikes(b)
    decreases |a|
  {
    if a == [] {
      assert |b| == |multiset(b)| == 0;
    } else {
      var x := a[0];
      assert x in multiset(b);
      var j :| 0 <= j < |b| && b[j] == x;
      var rest := b[..j] + b[j + 1..];
      assert b == b[..j] + [x] + b[j + 1..];
      assert a == [x] + a[1..];
      assert multiset(b) == multiset(b[..j]) + multiset([x]) + multiset(b[j + 1..]);
      assert multiset(a) == multiset([x]) + multiset(a[1..]);
      assert multiset(rest) == multiset(b[..j]) + multiset(b[j + 1..]);
      assert multiset(a[1..]) == multiset(a) - multiset([x]);
      assert multiset(rest) == multiset(b) - multiset([x]);
      TotalLikesPermutation(a[1..], rest);
      TotalLikesAppend([x], a[1..]);
      TotalLikesAppend(b[..j] + [x], b[j + 1..]);
      TotalLikesAppend(b[..j], [x]);
      TotalLikesAppend(b[..j], b[j + 1..]);
    }
  }

  // -------------------------------------------------------------- favoriteBlog

  /** The reducer of `favoriteBlog`: the current favourite is replaced only by strictly more likes. */
  function Favor(favorite: Blog, blog: Blog): Blog {
    if blog.likes > favorite.likes then blog else favorite
  }

  /** `reduce` of the reducer over `blogs`, left to right, from `favorite`. */
  function FoldFavorite(favorite: Blog, blogs: seq<Blog>): Blog
    decreases |blogs|
  {
    if blogs == [] then favorite else FoldFavorite(Favor(favorite, blogs[0]), blogs[1..])
  }

  /** The returned object literal `{title, author, likes}`. */
  function Project(blog: Blog): Favorite {
    Favorite(blog.title, blog.author, blog.likes)
  }

  /** Position `k` holds the maximum `likes`, and no earlier position reaches it. */
  ghost predicate IsFirstMax(blogs: seq<Blog>, k: nat) {
    && k < |blogs|
    && (forall j :: 0 <= j < |blogs| ==> blogs[j].likes <= blogs[k].likes)
    && (forall j :: 0 <= j < k ==> blogs[j].likes < blogs[k].likes)
  }

  /** The fold, resumed at position `i` with the first maximum of the prefix, ends on the first maximum. */
  lemma {:induction false} FoldFindsFirstMax(blogs: seq<Blog>, i: nat, k: nat) returns (m: nat)
    requires k < i <= |blogs| && IsFirstMax(blogs[..i], k)
    ensures IsFirstMax(blogs, m) && FoldFavorite(blogs[k], blogs[i..]) == blogs[m]
    decreases |blogs| - i
  {
    if i == |blogs| {
      assert blogs[..i] == blogs;
      m := k;
    } else {
      assert blogs[i..][0] == blogs[i] && blogs[i..][1..] == blogs[i + 1..];
      var next := if blogs[i].likes > blogs[k].likes then i else k;
      assert Favor(blogs[k], blogs[i]) == blogs[next];
      assert forall j :: 0 <= j < i ==> blogs[..i + 1][j] == blogs[..i][j];
      m := FoldFindsFirstMax(blogs, i + 1, next);
    }
  }

  /** Started from the first blog over the whole list, as `favoriteBlog` runs it, the fold ends on a first maximum. */
  lemma FoldFavoriteIsFirstMax(blogs: seq<Blog>)
    requires blogs != []
    ensures exists k: nat :: IsFirstMax(blogs, k) && FoldFavorite(blogs[0], blogs) == blogs[k]
  {
    assert blogs[..1] == [blogs[0]];
    var m := FoldFindsFirstMax(blogs, 1, 0);
    assert FoldFavorite(blogs[0], blogs) == FoldFavorite(blogs[0], blogs[1..]);
  }

  /**
   * `favoriteBlog`: null on an empty list; otherwise the projection of the blog
   * the fold settles on, which is the first one carrying the maximum likes.
   */
  function FavoriteBlog(blogs: seq<Blog>): (r: Option<Favorite>)
    ensures r == None <==> blogs == []
    ensures r.Some? ==> exists k: nat :: IsFirstMax(blogs, k) && r.value == Project(blogs[k])
  {
    if |blogs| == 0 then None
    else
      FoldFavoriteIsFirstMax(blogs);
      Some(Project(FoldFavorite(blogs[0], blogs)))
  }

  /** A non-empty list has a favourite whose likes are at least every blog's likes. */
  lemma FavoriteBlogHasMaxLikes(blogs: seq<Blog>)
    requires blogs != []
    ensures FavoriteBlog(blogs).Some?
    ensures forall j :: 0 <= j < |blogs| ==> blogs[j].likes <= FavoriteBlog(blogs).value.likes
  {
  }

  /** The favourite carries the title, author and likes of one of the blogs, unchanged. */
  lemma FavoriteBlogIsMember(blogs: seq<Blog>)
    requires blogs != []
    ensures exists b :: b in blogs && FavoriteBlog(blogs) == Some(Favorite(b.title, b.author, b.likes))
  {
    var r := FavoriteBlog(blogs);
    var k: nat :| IsFirstMax(blogs, k) && r.value == Project(blogs[k]);
    assert blogs[k] in blogs;
  }

  /** Ties go to the earliest blog: the result is the projection of the first maximal one. */
  lemma FavoriteBlogTieBreak(blogs: seq<Blog>, i: nat)
    requires IsFirstMax(blogs, i)
    ensures FavoriteBlog(blogs) == Some(Project(blogs[i]))
  {
  }

  /** A one-element list has that element's projection as favourite. */
  lemma FavoriteBlogSingleton(b: Blog)
    ensures FavoriteBlog([b]) == Some(Favorite(b.title, b.author, b.likes))
  {
  }

  // ----------------------------------------------------------------- mostBlogs

  /** `mostBlogs`: its body is empty, so it returns `undefined`; it is not exported. */
  function MostBlogs(blogs: seq<Blog>): (r: Undefined)
    ensures r == Undefined
  {
    Undefined
  }
}
