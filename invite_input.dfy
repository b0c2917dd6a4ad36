/**
 * The text box in which a user names the people to invite to a room:
 * how the typed text becomes a list of user ids, when the button reads
 * "Skip", which usernames are suggested for the word being typed, and
 * what choosing a suggestion writes back into the box.
 *
 * Strings are sequences of Unicode scalar values, where JavaScript uses
 * UTF-16 code units: a character outside the Basic Multilingual Plane is
 * one character here, and a lone surrogate cannot occur. Letter case is
 * folded for ASCII letters only.
 */
module InviteInput {
  import opened Common

  /** A user as the users store lists them. */
  datatype UserRef = UserRef(id: int, username: string)

  /** A character that JavaScript's `\s` matches and `trim` removes. */
  predicate IsSpace(c: char) {
    c == ' ' || c == '\t' || c == '\n' || c == '\U{000B}' || c == '\U{000C}' || c == '\r'
    || c == '\U{00A0}' || c == '\U{1680}' || ('\U{2000}' <= c <= '\U{200A}')
    || c == '\U{2028}' || c == '\U{2029}' || c == '\U{202F}' || c == '\U{205F}'
    || c == '\U{3000}' || c == '\U{FEFF}'
  }

  /** A character of the separator class `[\s,]`. */
  predicate IsSeparator(c: char) {
    IsSpace(c) || c == ','
  }

  predicate NoSeparator(t: string) {
    forall k :: 0 <= k < |t| ==> !IsSeparator(t[k])
  }

  /**
   * `s.split(/[\s,]+/)`: the pieces between maximal runs of separators. A
   * leading or trailing run gives an empty first or last piece, and the
   * empty string gives one empty piece.
   */
  function Split(s: string): (ts: seq<string>)
    ensures |ts| >= 1
    ensures forall i :: 0 <= i < |ts| ==> NoSeparator(ts[i])
    ensures s != [] && IsSeparator(s[|s| - 1]) ==> ts[|ts| - 1] == []
  {
    if s == [] then [[]]
    else
      var n := |s| - 1;
      var front := Split(s[..n]);
      if IsSeparator(s[n]) then
        (if n > 0 && IsSeparator(s[n - 1]) then front else front + [[]])
      else
        var last := front[|front| - 1] + [s[n]];
        assert forall k :: 0 <= k < |last| ==> !IsSeparator(last[k]);
        front[..|front| - 1] + [last]
  }

  /** Text made of separators only splits into empty pieces. */
  lemma {:induction false} SplitOfSeparators(s: string)
    requires forall k :: 0 <= k < |s| ==> IsSeparator(s[k])
    ensures forall i :: 0 <= i < |Split(s)| ==> Split(s)[i] == []
  {
    if s != [] {
      SplitOfSeparators(s[..|s| - 1]);
    }
  }

  /** Text with a non-separator in it has a non-empty piece. */
  lemma {:induction false} SplitHasWord(s: string, k: nat)
    requires k < |s| && !IsSeparator(s[k])
    ensures exists i :: 0 <= i < |Split(s)| && Split(s)[i] != []
  {
    var n := |s| - 1;
    var ts := Split(s);
    var front := Split(s[..n]);
    if IsSeparator(s[n]) {
      assert ts == front || ts == front + [[]];
      SplitHasWord(s[..n], k);
      var i :| 0 <= i < |front| && front[i] != [];
      assert ts[i] == front[i];
    } else {
      var last := front[|front| - 1] + [s[n]];
      assert ts == front[..|front| - 1] + [last];
      if k < n {
        SplitHasWord(s[..n], k);
        var i :| 0 <= i < |front| && front[i] != [];
        if i < |front| - 1 {
          assert ts[i] == front[i];
        } else {
          assert ts[|ts| - 1] == last;
        }
      } else {
        assert ts[|ts| - 1] == last;
      }
    }
  }

  /** The last piece of `Split(s)`: the word being typed. */
  function LastPiece(s: string): (w: string)
    ensures NoSeparator(w)
    ensures s != [] && IsSeparator(s[|s| - 1]) ==> w == []
  {
    var ts := Split(s);
    ts[|ts| - 1]
  }

  /** `t` without its leading white space. */
  function TrimStart(t: string): string {
    if t != [] && IsSpace(t[0]) then TrimStart(t[1..]) else t
  }

  /** `t` without its trailing white space. */
  function TrimEnd(t: string): string {
    if t != [] && IsSpace(t[|t| - 1]) then TrimEnd(t[..|t| - 1]) else t
  }

  /** `t.trim()`: no longer than `t`, and neither starting nor ending with white space. */
  function Trim(t: string): (r: string)
    ensures |r| <= |t|
    ensures r != [] ==> !IsSpace(r[0]) && !IsSpace(r[|r| - 1])
  {
    var front := TrimStart(t);
    TrimStartDrops(t);
    TrimEndDrops(front);
    TrimEnd(front)
  }

  lemma {:induction false} TrimStartDrops(t: string)
    ensures var r := TrimStart(t);
      |r| <= |t| && r == t[|t| - |r|..]
      && (forall k :: 0 <= k < |t| - |r| ==> IsSpace(t[k]))
      && (r != [] ==> !IsSpace(r[0]))
  {
    if t != [] && IsSpace(t[0]) {
      var u := t[1..];
      TrimStartDrops(u);
      var r := TrimStart(u);
      assert TrimStart(t) == r;
      assert u[|u| - |r|..] == t[|t| - |r|..];
      forall k | 0 <= k < |t| - |r| ensures IsSpace(t[k]) {
        if k > 0 {
          assert t[k] == u[k - 1];
        }
      }
    }
  }

  lemma {:induction false} TrimEndDrops(t: string)
    ensures var r := TrimEnd(t);
      |r| <= |t| && r == t[..|r|]
      && (forall k :: |r| <= k < |t| ==> IsSpace(t[k]))
      && (r != [] ==> !IsSpace(r[|r| - 1]))
  {
    if t != [] && IsSpace(t[|t| - 1]) {
      var u := t[..|t| - 1];
      TrimEndDrops(u);
      var r := TrimEnd(u);
      assert TrimEnd(t) == r;
      assert u[..|r|] == t[..|r|];
      forall k | |r| <= k < |t| ensures IsSpace(t[k]) {
        if k < |u| {
          assert t[k] == u[k];
        }
      }
    }
  }

  /** `t.trim()` is empty exactly when `t` is all white space, and keeps a word without any. */
  lemma TrimSpec(t: string)
    ensures Trim(t) == [] <==> forall k :: 0 <= k < |t| ==> IsSpace(t[k])
    ensures (forall k :: 0 <= k < |t| ==> !IsSpace(t[k])) ==> Trim(t) == t
  {
    var front := TrimStart(t);
    TrimStartDrops(t);
    TrimEndDrops(front);
    assert forall k :: |t| - |front| <= k < |t| ==> t[k] == front[k - (|t| - |front|)];
    if forall k :: 0 <= k < |t| ==> !IsSpace(t[k]) {
      assert front == t;
    }
  }

  /** `t.replace("@", "")`: the first "@", wherever it is, is removed; one character shorter iff there is one. */
  function RemoveFirstAt(t: string): (r: string)
    ensures |r| == if '@' in t then |t| - 1 else |t|
  {
    if t == [] then []
    else if t[0] == '@' then t[1..]
    else
      assert '@' in t <==> '@' in t[1..];
      [t[0]] + RemoveFirstAt(t[1..])
  }

  /** Text without an "@" is unchanged. */
  lemma {:induction false} RemoveFirstAtNone(t: string)
    requires '@' !in t
    ensures RemoveFirstAt(t) == t
  {
    if t != [] {
      RemoveFirstAtNone(t[1..]);
      assert t == [t[0]] + t[1..];
    }
  }

  /** Only the first "@", at position `i`, goes. */
  lemma {:induction false} RemoveFirstAtFirst(t: string, i: nat)
    requires i < |t| && t[i] == '@' && forall j :: 0 <= j < i ==> t[j] != '@'
    ensures RemoveFirstAt(t) == t[..i] + t[i + 1..]
  {
    if i > 0 {
      var rest := t[1..];
      RemoveFirstAtFirst(rest, i - 1);
      assert t[..i] == [t[0]] + rest[..i - 1];
      assert t[i + 1..] == rest[i..];
    }
  }

  /** `toLowerCase()` on one character, for ASCII letters. */
  function LowerChar(c: char): char {
    if 'A' <= c <= 'Z' then (c as int + 32) as char else c
  }

  /** `s.toLowerCase()`. */
  function Lower(s: string): (r: string)
    ensures |r| == |s| && forall k :: 0 <= k < |s| ==> r[k] == LowerChar(s[k])
  {
    seq(|s|, k requires 0 <= k < |s| => LowerChar(s[k]))
  }

  /** `xs.map(f)`. */
  function Map<A, B>(f: A -> B, xs: seq<A>): (r: seq<B>)
    ensures |r| == |xs| && forall i :: 0 <= i < |xs| ==> r[i] == f(xs[i])
  {
    seq(|xs|, i requires 0 <= i < |xs| => f(xs[i]))
  }

  /** `ns.filter(n => n.length > 0)`. */
  function NonEmpty(ns: seq<string>): (r: seq<string>)
    ensures forall n :: n in r <==> n in ns && n != []
    ensures (forall i :: 0 <= i < |ns| ==> ns[i] == []) ==> r == []
  {
    if ns == [] then []
    else
      var k := |ns| - 1;
      assert forall n :: n in ns <==> n in ns[..k] || n == ns[k];
      NonEmpty(ns[..k]) + (if ns[k] != [] then [ns[k]] else [])
  }

  lemma {:induction false} NonEmptyAppend(a: seq<string>, b: seq<string>)
    ensures NonEmpty(a + b) == NonEmpty(a) + NonEmpty(b)
  {
    if b == [] {
      assert a + b == a;
    } else {
      var k := |b| - 1;
      var init := b[..k];
      var last := if b[k] != [] then [b[k]] else [];
      assert (a + init) + [b[k]] == a + b && init + [b[k]] == b;
      calc {
        NonEmpty(a + b);
        { NonEmptySnoc(a + init, b[k]); }
        NonEmpty(a + init) + last;
        { NonEmptyAppend(a, init); }
        (NonEmpty(a) + NonEmpty(init)) + last;
        NonEmpty(a) + (NonEmpty(init) + last);
        { NonEmptySnoc(init, b[k]); }
        NonEmpty(a) + NonEmpty(b);
      }
    }
  }

  /** One more name adds itself at the end when it is non-empty. */
  lemma NonEmptySnoc(ns: seq<string>, n: string)
    ensures NonEmpty(ns + [n]) == NonEmpty(ns) + (if n != [] then [n] else [])
  {
    assert (ns + [n])[..|ns|] == ns;
  }

  lemma MapAppend<A, B>(f: A -> B, a: seq<A>, b: seq<A>)
    ensures Map(f, a + b) == Map(f, a) + Map(f, b)
  {
  }

  /**
   * A map that sends "" to "" may drop the empty pieces before or after
   * it is applied: the non-empty results are the same.
   */
  lemma {:induction false} DropEmptiesFirst(f: string -> string, ts: seq<string>)
    requires f([]) == []
    ensures NonEmpty(Map(f, ts)) == NonEmpty(Map(f, NonEmpty(ts)))
  {
    if ts != [] {
      var k := |ts| - 1;
      var t := ts[k];
      DropEmptiesFirst(f, ts[..k]);
      assert ts == ts[..k] + [t];
      MapAppend(f, ts[..k], [t]);
      NonEmptyAppend(Map(f, ts[..k]), Map(f, [t]));
      assert NonEmpty(ts) == NonEmpty(ts[..k]) + (if t != [] then [t] else []);
      MapAppend(f, NonEmpty(ts[..k]), if t != [] then [t] else []);
      NonEmptyAppend(Map(f, NonEmpty(ts[..k])), Map(f, if t != [] then [t] else []));
      if t == [] {
        assert NonEmpty(Map(f, [t])) == NonEmpty([[]]) == [];
      }
    }
  }

  /** One piece as a name: `n.replace("@", "").trim()`. */
  function Clean(t: string): (n: string)
    ensures |n| <= |t|
    ensures n != [] ==> !IsSpace(n[0]) && !IsSpace(n[|n| - 1])
  {
    Trim(RemoveFirstAt(t))
  }

  /** The names typed into the box: the pieces cleaned, empty ones dropped, order kept. */
  function Names(s: string): (ns: seq<string>)
    ensures forall n :: n in ns ==> n != [] && !IsSpace(n[0]) && !IsSpace(n[|n| - 1])
  {
    var cleaned := Map(Clean, Split(s));
    assert forall n :: n in cleaned ==> n != [] ==> !IsSpace(n[0]) && !IsSpace(n[|n| - 1]) by {
      forall n | n in cleaned && n != [] ensures !IsSpace(n[0]) && !IsSpace(n[|n| - 1]) {
        var i :| 0 <= i < |cleaned| && cleaned[i] == n;
        assert n == Clean(Split(s)[i]);
      }
    }
    NonEmpty(cleaned)
  }

  /** The non-empty pieces of the text. */
  function Words(s: string): seq<string> {
    NonEmpty(Split(s))
  }

  /** Only the non-empty pieces contribute names. */
  lemma NamesOfWords(s: string)
    ensures Names(s) == NonEmpty(Map(Clean, Words(s)))
  {
    assert Clean([]) == [];
    DropEmptiesFirst(Clean, Split(s));
  }

  /** The position of the first user whose username matches `name` case-insensitively, or -1. */
  function FindIndexByName(users: seq<UserRef>, name: string): (k: int)
    ensures -1 <= k < |users|
    ensures k >= 0 ==> Lower(users[k].username) == Lower(name)
    ensures k >= 0 ==> forall j :: 0 <= j < k ==> Lower(users[j].username) != Lower(name)
    ensures k == -1 ==> forall j :: 0 <= j < |users| ==> Lower(users[j].username) != Lower(name)
  {
    if users == [] then -1
    else if Lower(users[0].username) == Lower(name) then 0
    else
      var k := FindIndexByName(users[1..], name);
      if k == -1 then -1 else k + 1
  }

  /** `users.find(u => u.username.toLowerCase() === name.toLowerCase())?.id`. */
  function MatchId(users: seq<UserRef>, name: string): (id: Option<int>)
    ensures id.Some? <==> exists k :: 0 <= k < |users| && Lower(users[k].username) == Lower(name)
    ensures id.Some? ==> exists k :: 0 <= k < |users| && users[k].id == id.value
                                    && Lower(users[k].username) == Lower(name)
  {
    var k := FindIndexByName(users, name);
    if k == -1 then None else Some(users[k].id)
  }

  /** The ids of the users the names match, in the names' order; unmatched names give nothing. */
  function MatchedIds(users: seq<UserRef>, names: seq<string>): (ids: seq<int>)
    ensures forall x :: x in ids <==> exists name :: name in names && MatchId(users, name) == Some(x)
  {
    if names == [] then []
    else
      var n := |names| - 1;
      assert forall name :: name in names <==> name in names[..n] || name == names[n];
      var m := MatchId(users, names[n]);
      MatchedIds(users, names[..n]) + (if m.Some? then [m.value] else [])
  }

  /** `xs.filter(id => id !== me)`; with no user every id is kept. */
  function Exclude(xs: seq<int>, me: Option<int>): (r: seq<int>)
    ensures forall x :: x in r <==> x in xs && (me.None? || x != me.value)
    ensures me.None? || me.value !in xs ==> r == xs
    ensures Distinct(xs) ==> Distinct(r)
  {
    if xs == [] then []
    else
      var n := |xs| - 1;
      var front := Exclude(xs[..n], me);
      assert forall x :: x in xs <==> x in xs[..n] || x == xs[n];
      assert xs[..n] + [xs[n]] == xs;
      if me.Some? && xs[n] == me.value then front
      else
        assert Distinct(xs) ==> xs[n] !in xs[..n];
        front + [xs[n]]
  }

  /** In a list without repeats, the filter removes exactly the one place holding `me`. */
  lemma {:induction false} ExcludeRemovesOne(xs: seq<int>, me: int, p: nat)
    requires Distinct(xs) && p < |xs| && xs[p] == me
    ensures Exclude(xs, Some(me)) == xs[..p] + xs[p + 1..]
  {
    var n := |xs| - 1;
    var init := xs[..n];
    if p == n {
      assert me !in init;
      assert xs[..p] + xs[p + 1..] == init;
    } else {
      ExcludeRemovesOne(init, me, p);
      assert xs[n] != me;
      assert xs[..p] + xs[p + 1..] == (init[..p] + init[p + 1..]) + [xs[n]];
    }
  }

  /**
   * The ids `handleSubmit` sends: blank text gives none; otherwise each
   * typed name's first case-insensitive match, once each, in the order
   * first named, without the user who is inviting.
   */
  function InviteeIds(users: seq<UserRef>, s: string, me: Option<int>): (ids: seq<int>)
    ensures Distinct(ids)
    ensures me.Some? ==> me.value !in ids
    ensures Trim(s) == [] ==> ids == []
    ensures forall x :: x in ids <==>
      (me.None? || x != me.value) && exists name :: name in Names(s) && MatchId(users, name) == Some(x)
  {
    if Trim(s) == [] then
      TrimSpec(s);
      BlankHasNoNames(s);
      []
    else Exclude(Dedup(MatchedIds(users, Names(s))), me)
  }

  /** Text made of separators only names nobody. */
  lemma BlankHasNoNames(s: string)
    requires forall k :: 0 <= k < |s| ==> IsSeparator(s[k])
    ensures Names(s) == []
  {
    SplitOfSeparators(s);
    NamesOfWords(s);
  }

  /** The ids of `xs` all occur in `order`, and in the same order as in `xs`. */
  predicate InOrder(order: seq<int>, xs: seq<int>) {
    (forall x :: x in xs ==> x in order)
    && forall i, j :: 0 <= i < j < |xs| ==> FirstIndex(order, xs[i]) < FirstIndex(order, xs[j])
  }

  /** An id placed after everything already in order keeps the list in order. */
  lemma InOrderSnoc(order: seq<int>, front: seq<int>, y: int)
    requires InOrder(order, front) && y in order
    requires forall x :: x in front ==> FirstIndex(order, x) < FirstIndex(order, y)
    ensures InOrder(order, front + [y])
  {
    var r := front + [y];
    forall i, j | 0 <= i < j < |r| ensures FirstIndex(order, r[i]) < FirstIndex(order, r[j]) {
      assert r[i] == front[i];
      if j < |front| {
        assert r[j] == front[j];
      }
    }
  }

  /** Dropping one id keeps the others in the order they had. */
  lemma {:induction false} ExcludeKeepsOrder(xs: seq<int>, me: Option<int>, order: seq<int>)
    requires InOrder(order, xs)
    ensures InOrder(order, Exclude(xs, me))
  {
    if xs != [] {
      var n := |xs| - 1;
      InOrderPrefix(order, xs, n);
      ExcludeKeepsOrder(xs[..n], me, order);
      ExcludeLastInOrder(xs, me, order);
    }
  }

  /** A prefix of a list in order is in order. */
  lemma InOrderPrefix(order: seq<int>, xs: seq<int>, n: nat)
    requires InOrder(order, xs) && n <= |xs|
    ensures InOrder(order, xs[..n])
  {
    var init := xs[..n];
    assert forall x :: x in init ==> x in xs;
    forall i, j | 0 <= i < j < |init| ensures FirstIndex(order, init[i]) < FirstIndex(order, init[j]) {
      assert init[i] == xs[i] && init[j] == xs[j];
    }
  }

  /** The step of `ExcludeKeepsOrder`: the last id, when kept, comes after all the others. */
  lemma ExcludeLastInOrder(xs: seq<int>, me: Option<int>, order: seq<int>)
    requires xs != [] && InOrder(order, xs)
    requires InOrder(order, Exclude(xs[..|xs| - 1], me))
    ensures InOrder(order, Exclude(xs, me))
  {
    var n := |xs| - 1;
    var init := xs[..n];
    var front := Exclude(init, me);
    if !(me.Some? && xs[n] == me.value) {
      assert Exclude(xs, me) == front + [xs[n]];
      forall x | x in front ensures FirstIndex(order, x) < FirstIndex(order, xs[n]) {
        var a :| 0 <= a < n && init[a] == x;
        assert xs[a] == x;
      }
      InOrderSnoc(order, front, xs[n]);
    }
  }

  /** The ids come in the order their names were first typed. */
  lemma InviteeIdsInOrder(users: seq<UserRef>, s: string, me: Option<int>)
    ensures var matched := MatchedIds(users, Names(s));
      var ids := InviteeIds(users, s, me);
      (forall x :: x in ids ==> x in matched)
      && forall i, j :: 0 <= i < j < |ids| ==> FirstIndex(matched, ids[i]) < FirstIndex(matched, ids[j])
  {
    var matched := MatchedIds(users, Names(s));
    if Trim(s) != [] {
      var d := Dedup(matched);
      assert InviteeIds(users, s, me) == Exclude(d, me);
      ExcludeKeepsOrder(d, me, matched);
    }
  }

  /** What `handleSubmit` posts: the ids, or no request at all when there are none. */
  function SubmitRequest(users: seq<UserRef>, s: string, me: Option<int>): (req: Option<seq<int>>)
    ensures req.Some? ==> |req.value| > 0 && req.value == InviteeIds(users, s, me)
    ensures req.None? <==> InviteeIds(users, s, me) == []
    ensures Trim(s) == [] ==> req.None?
  {
    var ids := InviteeIds(users, s, me);
    if |ids| > 0 then Some(ids) else None
  }

  /**
   * `hasValidInput`: some piece is non-blank, which is exactly when the text
   * holds something other than separators; the button reads "Skip" otherwise.
   */
  function HasValidInput(s: string): (valid: bool)
    ensures valid <==> exists k :: 0 <= k < |s| && !IsSeparator(s[k])
  {
    NonBlankPieceIff(s);
    var ts := Split(s);
    exists i :: 0 <= i < |ts| && |Trim(ts[i])| > 0
  }

  /** Some piece is non-blank exactly when the text holds something other than separators. */
  lemma NonBlankPieceIff(s: string)
    ensures (exists i :: 0 <= i < |Split(s)| && |Trim(Split(s)[i])| > 0)
      <==> exists k :: 0 <= k < |s| && !IsSeparator(s[k])
  {
    var ts := Split(s);
    if exists k :: 0 <= k < |s| && !IsSeparator(s[k]) {
      var k :| 0 <= k < |s| && !IsSeparator(s[k]);
      SplitHasWord(s, k);
      var i :| 0 <= i < |ts| && ts[i] != [];
      TrimSpec(ts[i]);
    } else {
      SplitOfSeparators(s);
      forall i | 0 <= i < |ts| ensures |Trim(ts[i])| == 0 {
        TrimSpec(ts[i]);
      }
    }
  }

  /** Without a valid input nothing is posted. */
  lemma NoValidInputNoRequest(users: seq<UserRef>, s: string, me: Option<int>)
    requires !HasValidInput(s)
    ensures SubmitRequest(users, s, me).None?
  {
    BlankHasNoNames(s);
    if Trim(s) != [] {
      assert MatchedIds(users, Names(s)) == [];
    }
  }

  /**
   * The word being typed, as the suggestions match it: nothing right after a
   * separator, and a word typed without "@" just lower-cased.
   */
  function LastPartial(s: string): (p: string)
    ensures |p| <= |LastPiece(s)|
    ensures s != [] && IsSeparator(s[|s| - 1]) ==> p == []
    ensures '@' !in LastPiece(s) ==> p == Lower(LastPiece(s))
  {
    var w := LastPiece(s);
    TrimSpec(w);
    if '@' in w then Lower(RemoveFirstAt(Trim(w)))
    else RemoveFirstAtNone(w); Lower(RemoveFirstAt(Trim(w)))
  }

  /** The users whose lower-cased username starts with `p`, in list order. */
  function PrefixMatches(users: seq<UserRef>, p: string): (r: seq<UserRef>)
    ensures forall u :: u in r <==> u in users && p <= Lower(u.username)
    ensures |r| <= |users|
  {
    if users == [] then []
    else
      var n := |users| - 1;
      assert forall u :: u in users <==> u in users[..n] || u == users[n];
      PrefixMatches(users[..n], p) + (if p <= Lower(users[n].username) then [users[n]] else [])
  }

  /** The suggestion list: none while the word being typed is empty. */
  function Suggestions(users: seq<UserRef>, s: string): (r: seq<UserRef>)
    ensures LastPartial(s) == [] ==> r == []
    ensures LastPartial(s) != [] ==>
      forall u :: u in r <==> u in users && LastPartial(s) <= Lower(u.username)
  {
    var p := LastPartial(s);
    if p == [] then [] else PrefixMatches(users, p)
  }

  /** `parts.join(", ")`. */
  function Join(parts: seq<string>): string {
    if parts == [] then []
    else if |parts| == 1 then parts[0]
    else Join(parts[..|parts| - 1]) + ", " + parts[|parts| - 1]
  }

  /** The pieces of the box before the word being typed. */
  function TypedBefore(s: string): seq<string> {
    var ts := Split(s);
    ts[..|ts| - 1]
  }

  /**
   * Clicking a suggestion: the word being typed becomes "@" + username,
   * the pieces are joined with ", ", and ", " is appended.
   */
  function ChooseSuggestion(s: string, username: string): (t: string)
    ensures |t| >= |username| + 3 && t[|t| - |username| - 3..] == "@" + username + ", "
  {
    var mention := "@" + username;
    var parts := TypedBefore(s) + [mention];
    var j := Join(parts);
    assert |j| >= |mention| && j[|j| - |mention|..] == mention by {
      if |parts| > 1 {
        assert j == Join(parts[..|parts| - 1]) + ", " + mention;
      }
    }
    j + ", "
  }

  /** Appending one non-separator extends the last piece by it. */
  lemma AppendLetter(u: string, c: char)
    requires !IsSeparator(c)
    ensures var f := Split(u);
      Split(u + [c]) == f[..|f| - 1] + [f[|f| - 1] + [c]]
  {
    var t := u + [c];
    assert t[..|t| - 1] == u;
  }

  /** Appending a non-separator to text whose pieces are known extends its last piece. */
  lemma ExtendLastPiece(u: string, front: seq<string>, last: string, c: char)
    requires !IsSeparator(c) && Split(u) == front + [last]
    ensures Split(u + [c]) == front + [last + [c]]
  {
    AppendLetter(u, c);
    var f := Split(u);
    assert f[..|f| - 1] == front && f[|f| - 1] == last;
  }

  /** Appending a word without separators extends the last piece. */
  lemma SplitAppendWord(s: string, w: string)
    requires NoSeparator(w)
    ensures var ts := Split(s);
      Split(s + w) == ts[..|ts| - 1] + [ts[|ts| - 1] + w]
  {
    var ts := Split(s);
    var k := |ts| - 1;
    assert ts == ts[..k] + [ts[k]];
    ExtendByWord(s, w, ts[..k], ts[k]);
  }

  /** `SplitAppendWord` for text whose pieces are known, by induction on the word. */
  lemma {:induction false} ExtendByWord(u: string, w: string, front: seq<string>, last: string)
    requires NoSeparator(w) && Split(u) == front + [last]
    ensures Split(u + w) == front + [last + w]
    decreases |w|
  {
    if w == [] {
      assert u + w == u && last + w == last;
    } else {
      NoSeparatorTail(w);
      ExtendLastPiece(u, front, last, w[0]);
      ExtendByWord(u + [w[0]], w[1..], front, last + [w[0]]);
      ConsTail(u, w);
      ConsTail(last, w);
    }
  }

  /** A word without separators loses none by dropping its first character. */
  lemma NoSeparatorTail(w: string)
    requires w != [] && NoSeparator(w)
    ensures NoSeparator(w[1..])
  {
    forall j | 0 <= j < |w[1..]| ensures !IsSeparator(w[1..][j]) {
      assert w[1..][j] == w[j + 1];
    }
  }

  /** Moving the first character of `w` across the join leaves it unchanged. */
  lemma ConsTail(u: string, w: string)
    requires w != []
    ensures (u + [w[0]]) + w[1..] == u + w
  {
  }

  /** Appending one separator adds an empty last piece, unless the text already ends in one. */
  lemma AppendSeparator(s: string, c: char)
    requires IsSeparator(c)
    ensures Words(s + [c]) == Words(s)
    ensures LastPiece(s + [c]) == []
    ensures s != [] && IsSeparator(s[|s| - 1]) ==> Split(s + [c]) == Split(s)
  {
    var t := s + [c];
    assert t[..|t| - 1] == s;
    var ts := Split(s);
    if !(s != [] && IsSeparator(s[|s| - 1])) {
      assert Split(t) == ts + [[]];
      NonEmptyAppend(ts, [[]]);
      assert NonEmpty([[]]) == [];
    }
  }

  /** Typing a separator-free word and ", " after text whose last piece is empty. */
  lemma JoinStep(base: string, p: string)
    requires NoSeparator(p) && LastPiece(base) == []
    ensures Words(base + p + ", ") == Words(base) + NonEmpty([p])
    ensures LastPiece(base + p + ", ") == []
  {
    var typed := base + p;
    var comma := typed + [','];
    WordsTyped(base, p);
    AppendSeparator(typed, ',');
    AppendSeparator(comma, ' ');
    assert base + p + ", " == comma + [' '];
  }

  /** A separator-free word typed where the last piece is empty adds just that word. */
  lemma WordsTyped(base: string, p: string)
    requires NoSeparator(p) && LastPiece(base) == []
    ensures Words(base + p) == Words(base) + NonEmpty([p])
  {
    var x := Split(base);
    var k := |x| - 1;
    assert Words(base) == NonEmpty(x[..k]) by {
      assert x[..k] + [x[k]] == x;
      NonEmptyAppend(x[..k], [x[k]]);
      assert NonEmpty([x[k]]) == [];
    }
    assert Split(base + p) == x[..k] + [p] by {
      SplitAppendWord(base, p);
      assert x[k] + p == p;
    }
    NonEmptyAppend(x[..k], [p]);
  }

  /** The text ", " alone has no words and an empty last piece. */
  lemma SeparatorOnly()
    ensures Words(", ") == [] && LastPiece(", ") == []
  {
    var empty: string := [];
    assert Split(empty) == [[]];
    assert Words(empty) == [];
    AppendSeparator(empty, ',');
    assert empty + [','] == [','];
    AppendSeparator([','], ' ');
    assert [','] + [' '] == ", ";
  }

  /**
   * Text built by joining separator-free words with ", " and appending
   * ", " splits back into those words (empty ones dropped), followed by an
   * empty piece.
   */
  lemma {:induction false} JoinedWords(parts: seq<string>)
    requires forall i :: 0 <= i < |parts| ==> NoSeparator(parts[i])
    ensures Words(Join(parts) + ", ") == NonEmpty(parts)
    ensures LastPiece(Join(parts) + ", ") == []
  {
    if parts == [] {
      SeparatorOnly();
      assert Join(parts) + ", " == ", ";
    } else {
      var n := |parts| - 1;
      var p := parts[n];
      var init := parts[..n];
      var base: string;
      if n == 0 {
        base := [];
        assert Split(base) == [[]];
        assert Words(base) == [] == NonEmpty(init);
      } else {
        JoinedWords(init);
        base := Join(init) + ", ";
      }
      assert Join(parts) == base + p;
      assert init + [p] == parts;
      JoinedWordsStep(init, p, base);
    }
  }

  /** The step of `JoinedWords`: one more word joined after text that splits into the earlier ones. */
  lemma JoinedWordsStep(init: seq<string>, p: string, base: string)
    requires NoSeparator(p) && Words(base) == NonEmpty(init) && LastPiece(base) == []
    ensures Words(base + p + ", ") == NonEmpty(init + [p])
    ensures LastPiece(base + p + ", ") == []
  {
    JoinStep(base, p);
    NonEmptyAppend(init, [p]);
  }

  /**
   * After a suggestion is chosen, the box names the words typed before it
   * and then the chosen user, and the word being typed is empty again, so
   * the suggestion list closes.
   */
  lemma ChooseSuggestionNames(users: seq<UserRef>, s: string, username: string)
    requires username != [] && NoSeparator(username)
    ensures Names(ChooseSuggestion(s, username)) == NonEmpty(Map(Clean, TypedBefore(s))) + [username]
    ensures LastPartial(ChooseSuggestion(s, username)) == []
    ensures Suggestions(users, ChooseSuggestion(s, username)) == []
  {
    var before := TypedBefore(s);
    var chosen := "@" + username;
    var parts := before + [chosen];
    assert forall i :: 0 <= i < |parts| ==> NoSeparator(parts[i]) by {
      assert forall i :: 0 <= i < |before| ==> before[i] == Split(s)[i];
    }
    var text := ChooseSuggestion(s, username);
    JoinedWords(parts);
    NamesOfWords(text);
    assert Clean([]) == [];
    DropEmptiesFirst(Clean, parts);
    MapAppend(Clean, before, [chosen]);
    assert RemoveFirstAt(chosen) == username;
    TrimSpec(username);
    assert Clean(chosen) == username;
    NonEmptyAppend(Map(Clean, before), [username]);
    assert LastPartial(text) == Lower(RemoveFirstAt(Trim([])));
  }
}
