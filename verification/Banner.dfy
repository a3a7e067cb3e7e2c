/**
 The chain banner put on every message, and the routing that follows it: what is marked
 for the operator must stay marked through the rewriting, or it is published.
 */
module Banner {
  import opened Options
  import opened Sets

  predicate At(m: string, part: string, k: nat) { k + |part| <= |m| && m[k..k + |part|] == part }

  predicate Includes(m: string, part: string) { exists k :: 0 <= k <= |m| && At(m, part, k) }

  lemma HeadIncludes(banner: string, m: string)
    ensures Includes(banner + "\n\n" + m, banner)
  {
    assert At(banner + "\n\n" + m, banner, 0);
  }

  function Rewrite(banner: string, m: string): string {
    if Includes(m, banner) then m else banner + "\n\n" + m
  }

  function RewriteAll(banner: string, messages: seq<string>): (out: seq<string>)
    ensures |out| == |messages|
    ensures forall i :: 0 <= i < |messages| ==> out[i] == Rewrite(banner, messages[i])
  {
    if messages == [] then [] else
    RewriteAll(banner, messages[..|messages| - 1]) + [Rewrite(banner, messages[|messages| - 1])]
  }

  /** The rewrites of the marked messages; no marks at all if the set was never made. */
  function Remark(banner: string, messages: seq<string>, marks: Option<set<string>>): set<string> {
    if marks.None? then {} else set m | m in messages && m in marks.value :: Rewrite(banner, m)
  }

  predicate Marked(marks: Option<set<string>>, m: string) { marks.Some? && m in marks.value }

  /** What one pass of the bot wants to say. */
  class Outgoing {
    var messages: seq<string>
    var opsOnly: Option<set<string>>

    constructor (out: seq<string>, marks: Option<set<string>>)
      ensures messages == out && opsOnly == marks
    {
      messages, opsOnly := out, marks;
    }

    /** `applyBanner`; mainnet has no banner. */
    method ApplyBanner(banner: Option<string>)
      modifies this
      ensures banner.None? ==> messages == old(messages) && opsOnly == old(opsOnly)
      ensures banner.Some? ==> messages == RewriteAll(banner.value, old(messages))
      ensures banner.Some? ==> opsOnly == Some(Remark(banner.value, old(messages), old(opsOnly)))
    {
      if banner.None? { return; }
      var remarked: set<string> := {};
      var rewritten: seq<string> := [];
      var i := 0;
      while i < |messages|
        invariant 0 <= i <= |messages|
        invariant messages == old(messages) && opsOnly == old(opsOnly)
        invariant rewritten == RewriteAll(banner.value, messages[..i])
        invariant remarked == Remark(banner.value, messages[..i], opsOnly)
      {
        var m := messages[i];
        var out := if Includes(m, banner.value) then m else banner.value + "\n\n" + m;
        assert messages[..i + 1] == messages[..i] + [m];
        RemarkOneMore(banner.value, messages[..i], m, opsOnly);
        if opsOnly.Some? && m in opsOnly.value { remarked := remarked + {out}; }
        rewritten := rewritten + [out];
        i := i + 1;
      }
      assert messages[..i] == messages;
      messages := rewritten;
      opsOnly := Some(remarked);
    }

    /** The send loop: marked messages to the operator or nowhere, the rest to every channel. */
    method Route(sinks: seq<string>, hasOperator: bool)
      returns (published: seq<(string, string)>, private_: seq<string>)
      ensures published == Published(sinks, opsOnly, messages)
      ensures private_ == if hasOperator then Private(opsOnly, messages) else []
    {
      hide ToEach, Published, Private;
      published, private_ := [], [];
      var i := 0;
      NothingSent(sinks, opsOnly);
      while i < |messages|
        invariant 0 <= i <= |messages|
        invariant published == Published(sinks, opsOnly, messages[..i])
        invariant private_ == if hasOperator then Private(opsOnly, messages[..i]) else []
      {
        var m := messages[i];
        assert messages[..i + 1] == messages[..i] + [m];
        OneMoreSent(sinks, opsOnly, messages[..i], m);
        i := i + 1;
        if opsOnly.Some? && m in opsOnly.value {
          if hasOperator { private_ := private_ + [m]; }
          continue;
        }
        var j := 0;
        NoSink(m);
        while j < |sinks|
          invariant 0 <= j <= |sinks|
          invariant published == Published(sinks, opsOnly, messages[..i - 1]) + ToEach(sinks[..j], m)
        {
          OneMoreSink(sinks[..j], sinks[j], m);
          assert sinks[..j + 1] == sinks[..j] + [sinks[j]];
          published := published + [(sinks[j], m)];
          j := j + 1;
        }
        assert sinks[..j] == sinks;
      }
      assert messages[..i] == messages;
    }
  }

  lemma RemarkOneMore(banner: string, messages: seq<string>, m: string, marks: Option<set<string>>)
    ensures Remark(banner, messages + [m], marks)
         == Remark(banner, messages, marks) + if Marked(marks, m) then {Rewrite(banner, m)} else {}
  {}

  function ToEach(sinks: seq<string>, m: string): seq<(string, string)> {
    if sinks == [] then [] else ToEach(sinks[..|sinks| - 1], m) + [(sinks[|sinks| - 1], m)]
  }

  lemma NoSink(m: string)
    ensures ToEach([], m) == []
  {}

  lemma OneMoreSink(sinks: seq<string>, sink: string, m: string)
    ensures ToEach(sinks + [sink], m) == ToEach(sinks, m) + [(sink, m)]
  {
    assert (sinks + [sink])[..|sinks|] == sinks;
  }

  function Published(sinks: seq<string>, marks: Option<set<string>>, messages: seq<string>): seq<(string, string)> {
    if messages == [] then [] else
    var m := messages[|messages| - 1];
    Published(sinks, marks, messages[..|messages| - 1]) + if Marked(marks, m) then [] else ToEach(sinks, m)
  }

  function Private(marks: Option<set<string>>, messages: seq<string>): seq<string> {
    if messages == [] then [] else
    var m := messages[|messages| - 1];
    Private(marks, messages[..|messages| - 1]) + if Marked(marks, m) then [m] else []
  }

  lemma NothingSent(sinks: seq<string>, marks: Option<set<string>>)
    ensures Published(sinks, marks, []) == [] && Private(marks, []) == []
  {}

  lemma OneMoreSent(sinks: seq<string>, marks: Option<set<string>>, messages: seq<string>, m: string)
    ensures Published(sinks, marks, messages + [m])
         == Published(sinks, marks, messages) + if Marked(marks, m) then [] else ToEach(sinks, m)
    ensures Private(marks, messages + [m]) == Private(marks, messages) + if Marked(marks, m) then [m] else []
  {
    hide ToEach, Marked;
    assert (messages + [m])[..|messages|] == messages;
  }

  // ------------------------------------------------------------------ what the rewriting keeps

  lemma RewriteIncludes(banner: string, m: string)
    ensures Includes(Rewrite(banner, m), banner)
    ensures Rewrite(banner, Rewrite(banner, m)) == Rewrite(banner, m)
  {
    HeadIncludes(banner, m);
  }

  /** Two messages become one only when one of them is the other with the banner already on it. */
  lemma SameRewrite(banner: string, a: string, b: string)
    ensures Rewrite(banner, a) == Rewrite(banner, b)
       <==> (a == b || (!Includes(a, banner) && b == banner + "\n\n" + a)
             || (!Includes(b, banner) && a == banner + "\n\n" + b))
  {
    var head := banner + "\n\n";
    RewriteIncludes(banner, a);
    RewriteIncludes(banner, b);
    assert (head + a)[|head|..] == a && (head + b)[|head|..] == b;
  }

  /**
   The marking survives, exactly: after the banner a message is marked if and only if it
   was, or if the same text without the banner was a marked message too.
   */
  lemma MarksSurvive(banner: string, messages: seq<string>, marks: Option<set<string>>, m: string)
    requires m in messages
    ensures Rewrite(banner, m) in Remark(banner, messages, marks)
       <==> exists n :: n in messages && Marked(marks, n) && Rewrite(banner, n) == Rewrite(banner, m)
    ensures Marked(marks, m) ==> Rewrite(banner, m) in Remark(banner, messages, marks)
    ensures !Includes(m, banner) ==>
              (Rewrite(banner, m) in Remark(banner, messages, marks)
               <==> Marked(marks, m) || (banner + "\n\n" + m in messages && Marked(marks, banner + "\n\n" + m)))
  {
    forall n | n in messages ensures Rewrite(banner, n) == Rewrite(banner, m) <==>
        (n == m || (!Includes(n, banner) && m == banner + "\n\n" + n)
         || (!Includes(m, banner) && n == banner + "\n\n" + m))
    {
      SameRewrite(banner, n, m);
    }
    RewriteIncludes(banner, m);
    forall n | n in messages && !Includes(m, banner) ensures m != banner + "\n\n" + n {
      HeadIncludes(banner, n);
    }
  }

  /** Putting the banner on twice is putting it on once. */
  lemma BannerIdempotent(banner: string, messages: seq<string>, marks: Option<set<string>>)
    ensures var out, kept := RewriteAll(banner, messages), Remark(banner, messages, marks);
            RewriteAll(banner, out) == out && Remark(banner, out, Some(kept)) == kept
  {
    var out, kept := RewriteAll(banner, messages), Remark(banner, messages, marks);
    forall i | 0 <= i < |out| ensures Rewrite(banner, out[i]) == out[i] { RewriteIncludes(banner, messages[i]); }
    assert RewriteAll(banner, out) == out;
    forall k | k in kept ensures k in Remark(banner, out, Some(kept)) {
      var m :| m in messages && m in marks.value && Rewrite(banner, m) == k;
      var i :| 0 <= i < |messages| && messages[i] == m;
      assert out[i] == k;
    }
  }

  // ------------------------------------------------------------------ where messages end up

  lemma {:induction false} ToEachHas(sinks: seq<string>, m: string, sink: string, x: string)
    ensures (sink, x) in ToEach(sinks, m) <==> x == m && sink in sinks
  {
    if sinks != [] {
      ToEachHas(sinks[..|sinks| - 1], m, sink, x);
      assert sinks == sinks[..|sinks| - 1] + [sinks[|sinks| - 1]];
    }
  }

  /** Every unmarked message goes to every channel, and nothing else goes to any. */
  lemma {:induction false} PublishedHas(sinks: seq<string>, marks: Option<set<string>>, messages: seq<string>,
                                        sink: string, m: string)
    ensures (sink, m) in Published(sinks, marks, messages) <==> sink in sinks && m in messages && !Marked(marks, m)
  {
    if messages != [] {
      var n := |messages| - 1;
      PublishedHas(sinks, marks, messages[..n], sink, m);
      ToEachHas(sinks, messages[n], sink, m);
      assert messages == messages[..n] + [messages[n]];
    }
  }

  /** A message and a sink by their positions; messages first. */
  datatype Post = Post(message: nat, sink: nat)

  predicate Sooner(a: Post, b: Post) { a.message < b.message || (a.message == b.message && a.sink < b.sink) }

  /** An unmarked message and a sink. */
  predicate PostOk(sinks: seq<string>, marks: Option<set<string>>, messages: seq<string>, post: Post) {
    post.message < |messages| && post.sink < |sinks| && !Marked(marks, messages[post.message])
  }

  predicate IsPost(sinks: seq<string>, marks: Option<set<string>>, messages: seq<string>, pair: (string, string),
                   post: Post) {
    PostOk(sinks, marks, messages, post) && pair == (sinks[post.sink], messages[post.message])
  }

  predicate InTurn(posts: seq<Post>) { forall i, j :: 0 <= i < j < |posts| ==> Sooner(posts[i], posts[j]) }

  /** What went out as posts: in order, message by message and sink by sink, none twice and none missing. */
  ghost predicate PostedAs(sinks: seq<string>, marks: Option<set<string>>, messages: seq<string>,
                           published: seq<(string, string)>, posts: seq<Post>) {
    && |posts| == |published|
    && (forall k :: 0 <= k < |posts| ==> IsPost(sinks, marks, messages, published[k], posts[k]))
    && InTurn(posts)
    && (forall post :: PostOk(sinks, marks, messages, post) ==> post in posts)
  }

  lemma {:induction false} ToEachIs(sinks: seq<string>, m: string)
    ensures |ToEach(sinks, m)| == |sinks| && forall r :: 0 <= r < |sinks| ==> ToEach(sinks, m)[r] == (sinks[r], m)
  {
    if sinks != [] { ToEachIs(sinks[..|sinks| - 1], m); }
  }

  function PostsOf(n: nat, sinks: nat): (posts: seq<Post>)
    ensures |posts| == sinks && forall r :: 0 <= r < sinks ==> posts[r] == Post(n, r)
  {
    seq(sinks, r requires 0 <= r < sinks => Post(n, r))
  }

  /** Every unmarked message goes to every sink in turn, message by message, once. */
  lemma {:induction false} PublishedInOrder(sinks: seq<string>, marks: Option<set<string>>, messages: seq<string>)
    returns (posts: seq<Post>)
    ensures PostedAs(sinks, marks, messages, Published(sinks, marks, messages), posts)
  {
    posts := [];
    if messages != [] {
      var n := |messages| - 1;
      var m := messages[n];
      posts := PublishedInOrder(sinks, marks, messages[..n]);
      var before := Published(sinks, marks, messages[..n]);
      if Marked(marks, m) {
        KeptBack(sinks, marks, messages, before, posts);
      } else {
        SentOut(sinks, marks, messages, before, posts);
        posts := posts + PostsOf(n, |sinks|);
      }
    }
  }

  lemma KeptBack(sinks: seq<string>, marks: Option<set<string>>, messages: seq<string>,
                 published: seq<(string, string)>, posts: seq<Post>)
    requires messages != [] && PostedAs(sinks, marks, messages[..|messages| - 1], published, posts)
    requires Marked(marks, messages[|messages| - 1])
    ensures PostedAs(sinks, marks, messages, published, posts)
  {
    var before := messages[..|messages| - 1];
    hide Marked;
    forall k | 0 <= k < |posts| ensures IsPost(sinks, marks, messages, published[k], posts[k]) {
      assert IsPost(sinks, marks, before, published[k], posts[k]);
    }
    forall post | PostOk(sinks, marks, messages, post) ensures post in posts {
      assert PostOk(sinks, marks, before, post);
    }
  }

  lemma NewPosts(sinks: seq<string>, marks: Option<set<string>>, messages: seq<string>, n: nat, r: nat)
    requires n < |messages| && r < |sinks| && !Marked(marks, messages[n])
    ensures r < |ToEach(sinks, messages[n])|
    ensures IsPost(sinks, marks, messages, ToEach(sinks, messages[n])[r], PostsOf(n, |sinks|)[r])
  {
    hide Marked;
    ToEachIs(sinks, messages[n]);
  }

  lemma MoreInTurn(posts: seq<Post>, n: nat, sinks: nat)
    requires InTurn(posts) && forall k :: 0 <= k < |posts| ==> posts[k].message < n
    ensures InTurn(posts + PostsOf(n, sinks))
  {}

  lemma SentOut(sinks: seq<string>, marks: Option<set<string>>, messages: seq<string>,
                published: seq<(string, string)>, posts: seq<Post>)
    requires messages != [] && PostedAs(sinks, marks, messages[..|messages| - 1], published, posts)
    requires !Marked(marks, messages[|messages| - 1])
    ensures PostedAs(sinks, marks, messages, published + ToEach(sinks, messages[|messages| - 1]),
                     posts + PostsOf(|messages| - 1, |sinks|))
  {
    hide ToEach, Marked, InTurn;
    var n := |messages| - 1;
    var before, extra := messages[..n], PostsOf(n, |sinks|);
    var published', posts' := published + ToEach(sinks, messages[n]), posts + extra;
    ToEachIs(sinks, messages[n]);
    forall k | 0 <= k < |posts'| ensures IsPost(sinks, marks, messages, published'[k], posts'[k]) {
      if k < |posts| {
        assert IsPost(sinks, marks, before, published[k], posts[k]);
      } else {
        NewPosts(sinks, marks, messages, n, k - |posts|);
      }
    }
    forall k | 0 <= k < |posts| ensures posts[k].message < n {
      assert IsPost(sinks, marks, before, published[k], posts[k]);
    }
    MoreInTurn(posts, n, |sinks|);
    forall post | PostOk(sinks, marks, messages, post) ensures post in posts' {
      if post.message < n {
        assert PostOk(sinks, marks, before, post);
      } else {
        assert extra[post.sink] == post;
      }
    }
  }

  /** The operator gets the marked messages, all of them and in order. */
  lemma {:induction false} PrivateInOrder(marks: Option<set<string>>, messages: seq<string>) returns (at: seq<nat>)
    ensures |at| == |Private(marks, messages)| && Ascending(at)
    ensures forall k :: 0 <= k < |at| ==> at[k] < |messages| && Private(marks, messages)[k] == messages[at[k]]
    ensures forall n :: 0 <= n < |messages| ==> (Marked(marks, messages[n]) <==> n in at)
  {
    at := [];
    if messages != [] {
      var n := |messages| - 1;
      at := PrivateInOrder(marks, messages[..n]);
      assert forall k :: 0 <= k < n ==> messages[..n][k] == messages[k];
      if Marked(marks, messages[n]) { at := at + [n]; }
    }
  }

  /**
   From the marking to the channels: whatever the tick marked, neither the message nor
   its rewritten form reaches a public channel, on mainnet and off it.
   */
  lemma MarkedNeverPublished(banner: Option<string>, messages: seq<string>, marks: Option<set<string>>,
                             sinks: seq<string>, sink: string, m: string)
    requires m in messages && Marked(marks, m)
    ensures banner.None? ==> (sink, m) !in Published(sinks, marks, messages)
    ensures banner.Some? ==>
              (sink, Rewrite(banner.value, m)) !in Published(sinks, Some(Remark(banner.value, messages, marks)),
                                                             RewriteAll(banner.value, messages))
  {
    if banner.Some? {
      var out, kept := RewriteAll(banner.value, messages), Some(Remark(banner.value, messages, marks));
      PublishedHas(sinks, kept, out, sink, Rewrite(banner.value, m));
    } else {
      PublishedHas(sinks, marks, messages, sink, m);
    }
  }

  /** Losing the marks in the rewriting would publish exactly the marked messages that lacked the banner. */
  lemma WithoutRemarking(banner: string, messages: seq<string>, marks: set<string>, sinks: seq<string>, m: string)
    requires m in messages && m in marks && sinks != []
    requires forall n :: n in marks ==> n in messages && !Includes(n, banner)
    ensures (sinks[0], Rewrite(banner, m)) in Published(sinks, Some(marks), RewriteAll(banner, messages))
  {
    var out := RewriteAll(banner, messages);
    var i :| 0 <= i < |messages| && messages[i] == m;
    assert out[i] == Rewrite(banner, m);
    RewriteIncludes(banner, m);
    PublishedHas(sinks, Some(marks), out, sinks[0], Rewrite(banner, m));
  }
}
