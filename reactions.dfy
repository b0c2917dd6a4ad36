/**
 * The reaction strip under a message: the reactions grouped by emoji, one
 * chip per emoji showing how many users chose it and, as a tooltip, who.
 *
 * The grouping record is a plain object keyed by emoji; its entries come
 * out in the order the keys were first inserted, so the groups are listed
 * in order of each emoji's first occurrence.
 */
module Reactions {
  import opened Common
  import opened Wire

  /** One chip: an emoji, how many reacted with it, and who, in order. */
  datatype Group = Group(emoji: string, count: nat, users: seq<string>)

  /** The position of the group for `emoji`, or -1 when it has none yet. */
  function FindGroup(gs: seq<Group>, emoji: string): (k: int)
    ensures -1 <= k < |gs|
    ensures k >= 0 ==> gs[k].emoji == emoji
    ensures k == -1 ==> forall i :: 0 <= i < |gs| ==> gs[i].emoji != emoji
  {
    if gs == [] then -1
    else if gs[|gs| - 1].emoji == emoji then |gs| - 1
    else FindGroup(gs[..|gs| - 1], emoji)
  }

  /**
   * One step of the reduce: the reaction's emoji gets a fresh group with
   * no users when it has none, then its count goes up by one and the
   * reaction's username goes at the end of its users: afterwards the emoji
   * has a group, and the reaction is counted once more in total.
   */
  function AddTo(gs: seq<Group>, r: MessageReaction): (gs': seq<Group>)
    ensures FindGroup(gs', r.emoji) != -1
    ensures |gs'| == |gs| || |gs'| == |gs| + 1
    ensures TotalCount(gs') == TotalCount(gs) + 1
  {
    var k := FindGroup(gs, r.emoji);
    if k == -1 then
      var gs' := gs + [Group(r.emoji, 1, [r.username])];
      assert gs'[..|gs|] == gs && gs'[|gs|].emoji == r.emoji;
      gs'
    else
      var g := Group(r.emoji, gs[k].count + 1, gs[k].users + [r.username]);
      TotalCountUpdate(gs, k, g);
      assert gs[k := g][k].emoji == r.emoji;
      gs[k := g]
  }

  /**
   * `reactions.reduce(..., {})`, entries listed in insertion order: never
   * more groups than reactions, and the counts add up to the number of
   * reactions, so every reaction is counted exactly once.
   */
  function Grouped(rs: seq<MessageReaction>): (gs: seq<Group>)
    ensures |gs| <= |rs|
    ensures TotalCount(gs) == |rs|
  {
    if rs == [] then []
    else AddTo(Grouped(rs[..|rs| - 1]), rs[|rs| - 1])
  }

  /** What the component renders: nothing for a missing or empty list, else the groups. */
  function Render(reactions: Option<seq<MessageReaction>>): (r: Option<seq<Group>>)
    ensures r.None? <==> reactions.None? || reactions.value == []
    ensures r.Some? ==> r.value == Grouped(reactions.value) && |r.value| > 0
  {
    if reactions.None? || |reactions.value| == 0 then None
    else
      GroupedSpec(reactions.value);
      var rs := reactions.value;
      assert Emojis(rs)[0] in Dedup(Emojis(rs));
      Some(Grouped(rs))
  }

  /** The emoji of each reaction, in order. */
  function Emojis(rs: seq<MessageReaction>): (es: seq<string>)
    ensures |es| == |rs| && forall i :: 0 <= i < |rs| ==> es[i] == rs[i].emoji
  {
    seq(|rs|, i requires 0 <= i < |rs| => rs[i].emoji)
  }

  /** The reactions with this emoji, in their original order. */
  function WithEmoji(rs: seq<MessageReaction>, emoji: string): (r: seq<MessageReaction>)
    ensures forall x :: x in r <==> x in rs && x.emoji == emoji
    ensures |r| <= |rs|
  {
    if rs == [] then []
    else
      var n := |rs| - 1;
      assert forall x :: x in rs <==> x in rs[..n] || x == rs[n];
      WithEmoji(rs[..n], emoji) + (if rs[n].emoji == emoji then [rs[n]] else [])
  }

  /** No reaction has the emoji: none is kept. */
  lemma {:induction false} WithEmojiNone(rs: seq<MessageReaction>, emoji: string)
    requires forall i :: 0 <= i < |rs| ==> rs[i].emoji != emoji
    ensures WithEmoji(rs, emoji) == []
  {
    if rs != [] {
      WithEmojiNone(rs[..|rs| - 1], emoji);
    }
  }

  /** The username of each reaction, in order. */
  function Usernames(rs: seq<MessageReaction>): (us: seq<string>)
    ensures |us| == |rs| && forall i :: 0 <= i < |rs| ==> us[i] == rs[i].username
  {
    seq(|rs|, i requires 0 <= i < |rs| => rs[i].username)
  }

  /** The group for `emoji` says exactly who among `rs` reacted with it. */
  ghost predicate Describes(g: Group, rs: seq<MessageReaction>, emoji: string) {
    g.emoji == emoji
    && g.count == |WithEmoji(rs, emoji)|
    && g.users == Usernames(WithEmoji(rs, emoji))
  }

  /** A value appended to a list is new to `Dedup` exactly when it did not occur before. */
  lemma DedupSnoc(xs: seq<string>, x: string)
    ensures Dedup(xs + [x]) == if x in xs then Dedup(xs) else Dedup(xs) + [x]
  {
    assert (xs + [x])[..|xs|] == xs;
  }

  /** The emojis of one more reaction. */
  lemma Snoc(init: seq<MessageReaction>, r: MessageReaction)
    ensures Emojis(init + [r]) == Emojis(init) + [r.emoji]
  {
  }

  /** One more reaction joins the reactions with its own emoji and no other. */
  lemma WithEmojiSnoc(init: seq<MessageReaction>, r: MessageReaction, e: string)
    ensures WithEmoji(init + [r], e) == WithEmoji(init, e) + (if r.emoji == e then [r] else [])
  {
    assert (init + [r])[..|init|] == init;
  }

  /** A group for another emoji still describes the list after one more reaction. */
  lemma DescribesKept(g: Group, init: seq<MessageReaction>, r: MessageReaction, e: string)
    requires Describes(g, init, e) && e != r.emoji
    ensures Describes(g, init + [r], e)
  {
    WithEmojiSnoc(init, r, e);
  }

  /** The group of one describes a reaction whose emoji had none. */
  lemma DescribesNew(init: seq<MessageReaction>, r: MessageReaction)
    requires WithEmoji(init, r.emoji) == []
    ensures Describes(Group(r.emoji, 1, [r.username]), init + [r], r.emoji)
  {
    WithEmojiSnoc(init, r, r.emoji);
  }

  /** The emoji's group, counted once more and with the username appended, describes the longer list. */
  lemma DescribesGrown(g: Group, init: seq<MessageReaction>, r: MessageReaction)
    requires Describes(g, init, r.emoji)
    ensures Describes(Group(r.emoji, g.count + 1, g.users + [r.username]), init + [r], r.emoji)
  {
    WithEmojiSnoc(init, r, r.emoji);
    var prior := WithEmoji(init, r.emoji);
    assert Usernames(prior + [r]) == Usernames(prior) + [r.username];
  }

  /**
   * The groups are the distinct emojis in order of first occurrence, and
   * each group counts and names exactly the reactions with its emoji, in
   * input order.
   */
  lemma {:induction false} GroupedSpec(rs: seq<MessageReaction>)
    ensures |Grouped(rs)| == |Dedup(Emojis(rs))|
    ensures forall i :: 0 <= i < |Grouped(rs)| ==>
      Describes(Grouped(rs)[i], rs, Dedup(Emojis(rs))[i])
  {
    if rs != [] {
      var n := |rs| - 1;
      assert rs == rs[..n] + [rs[n]];
      GroupedSpec(rs[..n]);
      GroupedStep(rs[..n], rs[n]);
    }
  }

  /** The inductive step of `GroupedSpec`: one more reaction keeps the groups describing the list. */
  lemma GroupedStep(init: seq<MessageReaction>, r: MessageReaction)
    requires |Grouped(init)| == |Dedup(Emojis(init))|
    requires forall i :: 0 <= i < |Grouped(init)| ==>
      Describes(Grouped(init)[i], init, Dedup(Emojis(init))[i])
    ensures var gs' := AddTo(Grouped(init), r);
      |gs'| == |Dedup(Emojis(init + [r]))|
      && forall i :: 0 <= i < |gs'| ==> Describes(gs'[i], init + [r], Dedup(Emojis(init + [r]))[i])
  {
    var gs := Grouped(init);
    var es := Dedup(Emojis(init));
    if FindGroup(gs, r.emoji) == -1 {
      NewEmojiStep(gs, es, init, r);
    } else {
      OldEmojiStep(gs, es, init, r);
    }
  }

  /** `GroupedStep` for an emoji without a group: the group of one goes at the end. */
  lemma NewEmojiStep(gs: seq<Group>, es: seq<string>, init: seq<MessageReaction>, r: MessageReaction)
    requires |gs| == |es| && forall i :: 0 <= i < |gs| ==> Describes(gs[i], init, es[i])
    requires es == Dedup(Emojis(init)) && FindGroup(gs, r.emoji) == -1
    ensures var gs' := AddTo(gs, r);
      |gs'| == |Dedup(Emojis(init + [r]))|
      && forall i :: 0 <= i < |gs'| ==> Describes(gs'[i], init + [r], Dedup(Emojis(init + [r]))[i])
  {
    Snoc(init, r);
    DedupSnoc(Emojis(init), r.emoji);
    assert r.emoji !in es by {
      forall i | 0 <= i < |es| ensures es[i] != r.emoji {
        assert gs[i].emoji == es[i];
      }
    }
    assert r.emoji !in Emojis(init);
    forall i | 0 <= i < |init| ensures init[i].emoji != r.emoji {
      assert Emojis(init)[i] in Emojis(init);
    }
    WithEmojiNone(init, r.emoji);
    StepNew(gs, es, init, r);
  }

  /** `GroupedStep` for an emoji that has a group: that group grows in place. */
  lemma OldEmojiStep(gs: seq<Group>, es: seq<string>, init: seq<MessageReaction>, r: MessageReaction)
    requires |gs| == |es| && forall i :: 0 <= i < |gs| ==> Describes(gs[i], init, es[i])
    requires es == Dedup(Emojis(init)) && FindGroup(gs, r.emoji) != -1
    ensures var gs' := AddTo(gs, r);
      |gs'| == |Dedup(Emojis(init + [r]))|
      && forall i :: 0 <= i < |gs'| ==> Describes(gs'[i], init + [r], Dedup(Emojis(init + [r]))[i])
  {
    Snoc(init, r);
    DedupSnoc(Emojis(init), r.emoji);
    var k := FindGroup(gs, r.emoji);
    assert es[k] == r.emoji;
    assert r.emoji in Emojis(init);
    StepOld(gs, es, init, r, k);
  }

  /** A reaction with a new emoji: a group of one is appended. */
  lemma StepNew(gs: seq<Group>, es: seq<string>, init: seq<MessageReaction>, r: MessageReaction)
    requires |gs| == |es| && forall i :: 0 <= i < |gs| ==> Describes(gs[i], init, es[i])
    requires r.emoji !in es && WithEmoji(init, r.emoji) == []
    ensures var gs' := gs + [Group(r.emoji, 1, [r.username])];
      forall i :: 0 <= i < |gs'| ==> Describes(gs'[i], init + [r], (es + [r.emoji])[i])
  {
    var gs' := gs + [Group(r.emoji, 1, [r.username])];
    forall i | 0 <= i < |gs'| ensures Describes(gs'[i], init + [r], (es + [r.emoji])[i]) {
      if i < |gs| {
        assert es[i] in es;
        DescribesKept(gs[i], init, r, es[i]);
      } else {
        DescribesNew(init, r);
      }
    }
  }

  /** A reaction with an emoji already grouped: that group grows by it. */
  lemma StepOld(gs: seq<Group>, es: seq<string>, init: seq<MessageReaction>, r: MessageReaction, k: nat)
    requires |gs| == |es| && forall i :: 0 <= i < |gs| ==> Describes(gs[i], init, es[i])
    requires Distinct(es) && k < |es| && es[k] == r.emoji
    ensures var gs' := gs[k := Group(r.emoji, gs[k].count + 1, gs[k].users + [r.username])];
      forall i :: 0 <= i < |gs'| ==> Describes(gs'[i], init + [r], es[i])
  {
    var gs' := gs[k := Group(r.emoji, gs[k].count + 1, gs[k].users + [r.username])];
    forall i | 0 <= i < |gs'| ensures Describes(gs'[i], init + [r], es[i]) {
      if i == k {
        DescribesGrown(gs[k], init, r);
      } else {
        assert es[i] != r.emoji;
        DescribesKept(gs[i], init, r, es[i]);
      }
    }
  }

  /** The total of the counts in a list of groups. */
  function TotalCount(gs: seq<Group>): nat {
    if gs == [] then 0 else TotalCount(gs[..|gs| - 1]) + gs[|gs| - 1].count
  }

  /** Replacing one group changes the total by the change in its count. */
  lemma {:induction false} TotalCountUpdate(gs: seq<Group>, k: nat, g: Group)
    requires k < |gs|
    ensures TotalCount(gs[k := g]) == TotalCount(gs) - gs[k].count + g.count
  {
    var n := |gs| - 1;
    assert gs[k := g][..n] == if k == n then gs[..n] else gs[..n][k := g];
    if k < n {
      TotalCountUpdate(gs[..n], k, g);
    }
  }

  /** What a list of groups that describes `rs` emoji by emoji says about `rs`. */
  lemma DescribedGroups(gs: seq<Group>, es: seq<string>, rs: seq<MessageReaction>)
    requires |gs| == |es| && Distinct(es) && forall e :: e in es <==> e in Emojis(rs)
    requires forall i :: 0 <= i < |gs| ==> Describes(gs[i], rs, es[i])
    ensures forall i, j :: 0 <= i < j < |gs| ==> gs[i].emoji != gs[j].emoji
    ensures forall j :: 0 <= j < |rs| ==> exists i :: 0 <= i < |gs| && gs[i].emoji == rs[j].emoji
    ensures forall i :: 0 <= i < |gs| ==> gs[i].emoji in Emojis(rs)
    ensures forall i :: 0 <= i < |gs| ==> gs[i].count == |gs[i].users| == |WithEmoji(rs, gs[i].emoji)|
  {
    forall j | 0 <= j < |rs| ensures exists i :: 0 <= i < |gs| && gs[i].emoji == rs[j].emoji {
      assert Emojis(rs)[j] in es;
      var i :| 0 <= i < |es| && es[i] == rs[j].emoji;
      assert gs[i].emoji == rs[j].emoji;
    }
    assert forall j :: 0 <= j < |rs| ==> exists i :: 0 <= i < |gs| && gs[i].emoji == rs[j].emoji;
    forall i | 0 <= i < |gs| ensures gs[i].emoji in Emojis(rs) {
      assert es[i] in es;
    }
  }

  /**
   * One group per distinct emoji: no two groups share an emoji, every
   * reaction's emoji has a group and every group's emoji occurs, and each
   * group's count is the number of its reactions and of its users.
   */
  lemma GroupsPerEmoji(rs: seq<MessageReaction>)
    ensures forall i, j :: 0 <= i < j < |Grouped(rs)| ==> Grouped(rs)[i].emoji != Grouped(rs)[j].emoji
    ensures forall j :: 0 <= j < |rs| ==> exists i :: 0 <= i < |Grouped(rs)| && Grouped(rs)[i].emoji == rs[j].emoji
    ensures forall i :: 0 <= i < |Grouped(rs)| ==> Grouped(rs)[i].emoji in Emojis(rs)
    ensures forall i :: 0 <= i < |Grouped(rs)| ==>
      Grouped(rs)[i].count == |Grouped(rs)[i].users| == |WithEmoji(rs, Grouped(rs)[i].emoji)|
  {
    GroupedSpec(rs);
    DescribedGroups(Grouped(rs), Dedup(Emojis(rs)), rs);
  }
}
