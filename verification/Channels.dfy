/** One pass of the announcement bot from the tick to the channels. */
module Channels {
  import opened Announce
  import Banner
  import opened Options

  /** What goes out for a message: its wording, under the banner if there is one. */
  function Final(banner: Option<string>, wording: string): string {
    match banner
    case None => wording
    case Some(b) => Banner.Rewrite(b, wording)
  }

  function Texts(text: Message -> string, out: seq<Message>): (q: seq<string>)
    ensures |q| == |out| && forall i :: 0 <= i < |out| ==> q[i] == text(out[i])
  {
    seq(|out|, i requires 0 <= i < |out| => text(out[i]))
  }

  /** `runOnce` up to the saving of the state: tick, banner, then every message to its place. */
  method RunOnce(bot: Bot, cfg: Config, s: Sight, text: Message -> string, banner: Option<string>,
                 sinks: seq<string>, hasOperator: bool)
    returns (published: seq<(string, string)>, private_: seq<string>, ghost said: seq<Message>)
    modifies bot
    ensures bot.View() == Next(cfg, old(bot.View()), s) && said == Say(cfg, old(bot.View()), s)
    ensures forall sink, w :: (sink, w) in published <==>
              sink in sinks && (exists k :: k in said && w == Final(banner, text(k)))
              && forall k :: k in said && (k.Stall? || k.Recovered? || k.Held?) ==> w != Final(banner, text(k))
    ensures forall w :: w in private_ <==>
              hasOperator
              && exists k :: k in said && (k.Stall? || k.Recovered? || k.Held?) && w == Final(banner, text(k))
  {
    hide Say, Next, Final;
    var out, opsOnly := bot.Tick(cfg, s);
    said := out;
    var marks := set m | m in opsOnly :: text(m);
    var outgoing := new Banner.Outgoing(Texts(text, out), Some(marks));
    outgoing.ApplyBanner(banner);
    published, private_ := outgoing.Route(sinks, hasOperator);
    WhereTheyGo(text, banner, out, opsOnly, marks, sinks, outgoing.messages, outgoing.opsOnly);
  }

  /** What the banner makes of the texts and of the marks. */
  lemma AfterBanner(text: Message -> string, banner: Option<string>, out: seq<Message>, opsOnly: set<Message>,
                    marks: set<string>, messages: seq<string>, kept: Option<set<string>>)
    requires marks == (set m | m in opsOnly :: text(m)) && forall k :: k in opsOnly ==> k in out
    requires banner.None? ==> messages == Texts(text, out) && kept == Some(marks)
    requires banner.Some? ==> messages == Banner.RewriteAll(banner.value, Texts(text, out))
    requires banner.Some? ==> kept == Some(Banner.Remark(banner.value, Texts(text, out), Some(marks)))
    ensures forall w :: w in messages <==> exists k :: k in out && w == Final(banner, text(k))
    ensures forall w :: Banner.Marked(kept, w) <==> exists k :: k in opsOnly && w == Final(banner, text(k))
  {
    hide Banner.Rewrite, Banner.RewriteAll;
    var texts := Texts(text, out);
    forall k | k in out ensures text(k) in texts && Final(banner, text(k)) in messages {
      var i :| 0 <= i < |out| && out[i] == k;
      assert texts[i] == text(k) && messages[i] == Final(banner, text(k));
    }
    forall w | w in messages ensures exists k :: k in out && w == Final(banner, text(k)) {
      var i :| 0 <= i < |messages| && messages[i] == w;
      assert out[i] in out && w == Final(banner, text(out[i]));
    }
  }

  lemma WhereTheyGo(text: Message -> string, banner: Option<string>, out: seq<Message>, opsOnly: set<Message>,
                    marks: set<string>, sinks: seq<string>, messages: seq<string>, kept: Option<set<string>>)
    requires marks == (set m | m in opsOnly :: text(m)) && forall k :: k in opsOnly ==> k in out
    requires banner.None? ==> messages == Texts(text, out) && kept == Some(marks)
    requires banner.Some? ==> messages == Banner.RewriteAll(banner.value, Texts(text, out))
    requires banner.Some? ==> kept == Some(Banner.Remark(banner.value, Texts(text, out), Some(marks)))
    ensures forall sink, w :: (sink, w) in Banner.Published(sinks, kept, messages) <==>
              sink in sinks && (exists k :: k in out && w == Final(banner, text(k)))
              && forall k :: k in opsOnly ==> w != Final(banner, text(k))
    ensures forall w :: w in Banner.Private(kept, messages) <==> exists k :: k in opsOnly && w == Final(banner, text(k))
  {
    AfterBanner(text, banner, out, opsOnly, marks, messages, kept);
    hide Final, Banner.Marked, Banner.Published, Banner.Private;
    forall sink, w
      ensures (sink, w) in Banner.Published(sinks, kept, messages)
         <==> sink in sinks && w in messages && !Banner.Marked(kept, w)
    {
      Banner.PublishedHas(sinks, kept, messages, sink, w);
    }
    forall w ensures w in Banner.Private(kept, messages) <==> w in messages && Banner.Marked(kept, w) {
      PrivateHas(kept, messages, w);
    }
  }

  lemma PrivateHas(kept: Option<set<string>>, messages: seq<string>, w: string)
    ensures w in Banner.Private(kept, messages) <==> w in messages && Banner.Marked(kept, w)
  {
    hide Banner.Private, Banner.Marked;
    var at := Banner.PrivateInOrder(kept, messages);
    if w in Banner.Private(kept, messages) {
      var i :| 0 <= i < |at| && Banner.Private(kept, messages)[i] == w;
      assert messages[at[i]] == w && at[i] in at;
    }
    if w in messages && Banner.Marked(kept, w) {
      var n :| 0 <= n < |messages| && messages[n] == w;
      var i :| 0 <= i < |at| && at[i] == n;
      assert Banner.Private(kept, messages)[i] == w;
    }
  }
}
