/**
  The author list of the result: the commits grouped by `name <email>`,
  one entry per key with the commit count, in the order the keys first
  appear, then sorted by count, most commits first, keeping that order
  among equal counts.
 */
module Authors {
  import opened Types

  /** One author of the commits and how many of them they made. */
  datatype UserInfo = UserInfo(name: string, email: string, commits: nat)

  /** The grouping key `${author} <${authorEmail}>`. */
  function Key(c: CommitInfo): string {
    c.author + " <" + c.authorEmail + ">"
  }

  function UserKey(u: UserInfo): string {
    u.name + " <" + u.email + ">"
  }

  predicate Distinct(ks: seq<string>) {
    forall i, j :: 0 <= i < j < |ks| ==> ks[i] != ks[j]
  }

  predicate HasKey(commits: seq<CommitInfo>, key: string) {
    exists i :: 0 <= i < |commits| && Key(commits[i]) == key
  }

  /** The keys of the commits, each once, in the order they first appear. */
  function Keys(commits: seq<CommitInfo>): (r: seq<string>)
    ensures Distinct(r)
    decreases |commits|
  {
    if commits == [] then []
    else
      var ks := Keys(commits[..|commits| - 1]);
      var k := Key(commits[|commits| - 1]);
      if k in ks then ks else ks + [k]
  }

  /** The keys listed are exactly the keys of the commits. */
  lemma {:induction false} KeysAreKeys(commits: seq<CommitInfo>)
    ensures forall k :: k in Keys(commits) <==> HasKey(commits, k)
    decreases |commits|
  {
    if commits != [] {
      var init := commits[..|commits| - 1];
      var k := Key(commits[|commits| - 1]);
      KeysAreKeys(init);
      forall q ensures q in Keys(commits) <==> HasKey(commits, q) {
        if HasKey(init, q) {
          var i :| 0 <= i < |init| && Key(init[i]) == q;
          assert Key(commits[i]) == q;
        }
        if HasKey(commits, q) {
          var i :| 0 <= i < |commits| && Key(commits[i]) == q;
          if i < |init| {
            assert Key(init[i]) == q;
          }
        }
      }
    }
  }

  /** The number of commits with the key. */
  function Count(commits: seq<CommitInfo>, key: string): nat
    decreases |commits|
  {
    if commits == [] then 0
    else Count(commits[..|commits| - 1], key) + (if Key(commits[|commits| - 1]) == key then 1 else 0)
  }

  /** The index of the first commit with the key. */
  function FirstIndex(commits: seq<CommitInfo>, key: string): (r: nat)
    requires HasKey(commits, key)
    ensures r < |commits| && Key(commits[r]) == key
    ensures forall i :: 0 <= i < r ==> Key(commits[i]) != key
    decreases |commits|
  {
    if Key(commits[0]) == key then 0
    else
      assert HasKey(commits[1..], key) by {
        var i :| 0 <= i < |commits| && Key(commits[i]) == key;
        assert commits[1..][i - 1] == commits[i];
      }
      FirstIndex(commits[1..], key) + 1
  }

  /** The entry of one key: the name and email of its first commit, and its commit count. */
  function Entry(commits: seq<CommitInfo>, key: string): UserInfo
    requires HasKey(commits, key)
  {
    var c := commits[FirstIndex(commits, key)];
    UserInfo(c.author, c.authorEmail, Count(commits, key))
  }

  /** The grouping: one entry per key, in the order the keys first appear. */
  function Group(commits: seq<CommitInfo>): seq<UserInfo> {
    var ks := Keys(commits);
    KeysAreKeys(commits);
    seq(|ks|, j requires 0 <= j < |ks| => Entry(commits, ks[j]))
  }

  /**
    The reduce over the commits: an object keyed by `name <email>`, whose
    entries keep the name and email of the first commit with the key and
    count the commits; its values in insertion order (the keys contain
    " <", so none is an array index and none is moved to the front).
   */
  method GroupAuthors(commits: seq<CommitInfo>) returns (users: seq<UserInfo>)
    ensures users == Group(commits)
  {
    var acc, order := Reduce(commits);
    TallyIsGroup(commits);
    users := seq(|order|, j requires 0 <= j < |order| => acc[order[j]]);
    assert forall j :: 0 <= j < |users| ==> users[j] == Group(commits)[j];
  }

  /** The reduce itself: the object, and its keys in insertion order. */
  method Reduce(commits: seq<CommitInfo>) returns (acc: map<string, UserInfo>, order: seq<string>)
    ensures acc == Tally(commits) && order == Keys(commits)
  {
    acc, order := map[], [];
    var i := 0;
    while i < |commits|
      invariant 0 <= i <= |commits|
      invariant acc == Tally(commits[..i]) && order == Keys(commits[..i])
    {
      var commit := commits[i];
      var key := Key(commit);
      TallyKey(commits, i, key);
      ghost var before := acc;
      if key !in acc {
        acc := acc[key := UserInfo(commit.author, commit.authorEmail, 0)];
        order := order + [key];
      }
      acc := acc[key := acc[key].(commits := acc[key].commits + 1)];
      assert acc == if key in before then before[key := before[key].(commits := before[key].commits + 1)]
        else before[key := UserInfo(commit.author, commit.authorEmail, 1)];
      TallyFrom(commits, i, before, acc);
      KeysStep(commits, i);
      i := i + 1;
    }
    assert commits[..i] == commits;
  }

  /**
    The object the reduce builds over the commits, one commit at a time;
    every entry counts at least one commit and no more than there are.
   */
  function Tally(s: seq<CommitInfo>): (r: map<string, UserInfo>)
    ensures forall k :: k in r ==> 1 <= r[k].commits <= |s|
    decreases |s|
  {
    if s == [] then map[]
    else
      var m, c := Tally(s[..|s| - 1]), s[|s| - 1];
      var key := Key(c);
      if key in m then m[key := m[key].(commits := m[key].commits + 1)]
      else m[key := UserInfo(c.author, c.authorEmail, 1)]
  }

  lemma TallyStep(commits: seq<CommitInfo>, i: nat)
    requires i < |commits|
    ensures var m, key := Tally(commits[..i]), Key(commits[i]);
      Tally(commits[..i + 1]) ==
        if key in m then m[key := m[key].(commits := m[key].commits + 1)]
        else m[key := UserInfo(commits[i].author, commits[i].authorEmail, 1)]
  {
    assert commits[..i + 1][..i] == commits[..i];
  }

  /** One more commit, stated on the object before and after. */
  lemma TallyFrom(commits: seq<CommitInfo>, i: nat, before: map<string, UserInfo>, after: map<string, UserInfo>)
    requires i < |commits| && before == Tally(commits[..i])
    requires var key := Key(commits[i]);
      after == if key in before then before[key := before[key].(commits := before[key].commits + 1)]
        else before[key := UserInfo(commits[i].author, commits[i].authorEmail, 1)]
    ensures after == Tally(commits[..i + 1])
  {
    TallyStep(commits, i);
  }

  /** The object has an entry for exactly the keys of the commits, and each entry is the key's `Entry`. */
  lemma {:induction false} TallyEntries(commits: seq<CommitInfo>, i: nat)
    requires i <= |commits|
    ensures forall k :: HasKey(commits[..i], k) ==> k in Tally(commits[..i])
    ensures forall k :: k in Tally(commits[..i]) ==> HasKey(commits[..i], k) && Tally(commits[..i])[k] == Entry(commits[..i], k)
    decreases i
  {
    if i > 0 {
      TallyEntries(commits, i - 1);
      forall k ensures (k in Tally(commits[..i]) <==> HasKey(commits[..i], k)) &&
                       (k in Tally(commits[..i]) ==> Tally(commits[..i])[k] == Entry(commits[..i], k)) {
        TallyKeyStep(commits, i - 1, k);
      }
    }
  }

  /** One more commit keeps the entry of one key in step with the longer prefix. */
  lemma TallyKeyStep(commits: seq<CommitInfo>, j: nat, k: string)
    requires j < |commits|
    requires k in Tally(commits[..j]) <==> HasKey(commits[..j], k)
    requires k in Tally(commits[..j]) ==> Tally(commits[..j])[k] == Entry(commits[..j], k)
    ensures k in Tally(commits[..j + 1]) <==> HasKey(commits[..j + 1], k)
    ensures k in Tally(commits[..j + 1]) ==> Tally(commits[..j + 1])[k] == Entry(commits[..j + 1], k)
  {
    TallyStep(commits, j);
    HasKeyStep(commits, j, k);
    var m, m' := Tally(commits[..j]), Tally(commits[..j + 1]);
    if k in m || k == Key(commits[j]) {
      var known := k in m;
      EntryStep(commits, j, k, known, if known then m[k] else m'[k], m'[k]);
    }
  }

  /** A key of one more commit is a key of the shorter prefix or the key of that commit. */
  lemma HasKeyStep(commits: seq<CommitInfo>, i: nat, k: string)
    requires i < |commits|
    ensures HasKey(commits[..i + 1], k) <==> HasKey(commits[..i], k) || k == Key(commits[i])
  {
    var s, t := commits[..i], commits[..i + 1];
    if HasKey(t, k) {
      var n :| 0 <= n < |t| && Key(t[n]) == k;
      if n < i {
        assert Key(s[n]) == k;
      }
    }
    if HasKey(s, k) {
      var n :| 0 <= n < |s| && Key(s[n]) == k;
      assert Key(t[n]) == k;
    }
    if k == Key(commits[i]) {
      assert Key(t[i]) == k;
    }
  }

  /** The object has an entry for exactly the keys listed. */
  lemma TallyKey(commits: seq<CommitInfo>, i: nat, k: string)
    requires i <= |commits|
    ensures k in Tally(commits[..i]) <==> k in Keys(commits[..i])
  {
    TallyEntries(commits, i);
    KeysAreKeys(commits[..i]);
  }

  /** The entries of the whole object, in the order of the keys, are the grouping. */
  lemma TallyIsGroup(commits: seq<CommitInfo>)
    ensures forall k :: k in Keys(commits) ==>
      HasKey(commits, k) && k in Tally(commits) && Tally(commits)[k] == Entry(commits, k)
  {
    KeysAreKeys(commits);
    TallyEntries(commits, |commits|);
    assert commits[..|commits|] == commits;
  }

  /** One more commit adds one to its key's entry, or starts the entry of a new key. */
  lemma EntryStep(commits: seq<CommitInfo>, i: nat, k: string, known: bool, e0: UserInfo, e: UserInfo)
    requires i < |commits|
    requires known <==> HasKey(commits[..i], k)
    requires known ==> e0 == Entry(commits[..i], k)
    requires known || k == Key(commits[i])
    requires e == (if !known then UserInfo(commits[i].author, commits[i].authorEmail, 1)
                   else if k == Key(commits[i]) then e0.(commits := e0.commits + 1)
                   else e0)
    ensures HasKey(commits[..i + 1], k) && e == Entry(commits[..i + 1], k)
  {
    CountStep(commits, i, k);
    FirstStep(commits, i, k);
    if !known {
      CountAbsent(commits[..i], k);
    } else {
      assert commits[..i + 1][FirstIndex(commits[..i], k)] == commits[..i][FirstIndex(commits[..i], k)];
    }
  }

  /** One more commit adds its key at the end when the key is new. */
  lemma KeysStep(commits: seq<CommitInfo>, i: nat)
    requires i < |commits|
    ensures var key := Key(commits[i]);
      Keys(commits[..i + 1]) == (if key in Keys(commits[..i]) then Keys(commits[..i]) else Keys(commits[..i]) + [key])
  {
    assert commits[..i + 1][..i] == commits[..i];
  }

  /** One more commit counts for its own key only. */
  lemma CountStep(commits: seq<CommitInfo>, i: nat, k: string)
    requires i < |commits|
    ensures Count(commits[..i + 1], k) == Count(commits[..i], k) + (if k == Key(commits[i]) then 1 else 0)
  {
    assert commits[..i + 1][..i] == commits[..i];
  }

  /** One more commit leaves the first commit of a known key where it was, and is the first of a new key. */
  lemma FirstStep(commits: seq<CommitInfo>, i: nat, k: string)
    requires i < |commits| && (HasKey(commits[..i], k) || k == Key(commits[i]))
    ensures HasKey(commits[..i + 1], k)
    ensures HasKey(commits[..i], k) ==> FirstIndex(commits[..i + 1], k) == FirstIndex(commits[..i], k)
    ensures !HasKey(commits[..i], k) ==> FirstIndex(commits[..i + 1], k) == i
  {
    var s, t := commits[..i], commits[..i + 1];
    if HasKey(s, k) {
      var f := FirstIndex(s, k);
      assert t[f] == s[f];
      var g := FirstIndex(t, k);
      assert g < |s| ==> t[g] == s[g];
    } else {
      assert Key(t[i]) == k;
    }
  }

  // ---------------------------------------------------------------------------
  // Properties of the grouping

  function TotalCommits(users: seq<UserInfo>): nat
    decreases |users|
  {
    if users == [] then 0 else users[0].commits + TotalCommits(users[1..])
  }

  function SumCounts(commits: seq<CommitInfo>, ks: seq<string>): nat
    decreases |ks|
  {
    if ks == [] then 0 else Count(commits, ks[0]) + SumCounts(commits, ks[1..])
  }

  lemma {:induction false} SumCountsStep(s: seq<CommitInfo>, c: CommitInfo, ks: seq<string>)
    requires Distinct(ks)
    ensures SumCounts(s + [c], ks) == SumCounts(s, ks) + (if Key(c) in ks then 1 else 0)
    decreases |ks|
  {
    assert (s + [c])[..|s + [c]| - 1] == s;
    if ks != [] {
      assert Distinct(ks[1..]) by {
        forall i, j | 0 <= i < j < |ks| - 1 ensures ks[1..][i] != ks[1..][j] {
          assert ks[1..][i] == ks[i + 1] && ks[1..][j] == ks[j + 1];
        }
      }
      SumCountsStep(s, c, ks[1..]);
      assert Key(c) in ks <==> Key(c) == ks[0] || Key(c) in ks[1..];
      if Key(c) == ks[0] {
        assert Key(c) !in ks[1..] by {
          forall j | 0 <= j < |ks| - 1 ensures ks[1..][j] != ks[0] {
            assert ks[1..][j] == ks[j + 1];
          }
        }
      }
    }
  }

  lemma {:induction false} SumCountsAppend(s: seq<CommitInfo>, ks: seq<string>, k: string)
    ensures SumCounts(s, ks + [k]) == SumCounts(s, ks) + Count(s, k)
    decreases |ks|
  {
    if ks == [] {
      assert [] + [k] == [k];
    } else {
      assert (ks + [k])[1..] == ks[1..] + [k];
      SumCountsAppend(s, ks[1..], k);
    }
  }

  lemma {:induction false} CountAbsent(s: seq<CommitInfo>, k: string)
    requires !HasKey(s, k)
    ensures Count(s, k) == 0
    decreases |s|
  {
    if s != [] {
      var init := s[..|s| - 1];
      forall i | 0 <= i < |init| ensures Key(init[i]) != k {
        assert init[i] == s[i];
      }
      CountAbsent(init, k);
    }
  }

  /** Every commit is counted once: the counts over the keys add up to the number of commits. */
  lemma {:induction false} CountsCoverCommits(s: seq<CommitInfo>)
    ensures SumCounts(s, Keys(s)) == |s|
    decreases |s|
  {
    if s != [] {
      var init, c := s[..|s| - 1], s[|s| - 1];
      assert s == init + [c];
      CountsCoverCommits(init);
      var ks := Keys(init);
      SumCountsStep(init, c, ks);
      if Key(c) !in ks {
        SumCountsAppend(s, ks, Key(c));
        SumCountsStep(init, c, ks);
        KeysAreKeys(init);
        CountAbsent(init, Key(c));
        assert Count(s, Key(c)) == 1;
      }
    }
  }

  lemma {:induction false} TotalIsSum(s: seq<CommitInfo>, users: seq<UserInfo>, ks: seq<string>)
    requires |users| == |ks| && forall j :: 0 <= j < |ks| ==> users[j].commits == Count(s, ks[j])
    ensures TotalCommits(users) == SumCounts(s, ks)
    decreases |ks|
  {
    if ks != [] {
      TotalIsSum(s, users[1..], ks[1..]);
    }
  }

  /**
    The grouping accounts for every commit exactly once: one entry per
    distinct key, each with at least one commit, every commit's key
    present, and the counts adding up to the number of commits.
   */
  lemma GroupAccountsForCommits(commits: seq<CommitInfo>)
    ensures var g := Group(commits);
      TotalCommits(g) == |commits| &&
      |g| == |Keys(commits)| &&
      (forall j :: 0 <= j < |g| ==> g[j].commits >= 1 && UserKey(g[j]) == Keys(commits)[j]) &&
      (forall i :: 0 <= i < |commits| ==> exists j :: 0 <= j < |g| && UserKey(g[j]) == Key(commits[i]))
  {
    var g, ks := Group(commits), Keys(commits);
    KeysAreKeys(commits);
    CountsCoverCommits(commits);
    TotalIsSum(commits, g, ks);
    forall j | 0 <= j < |g| ensures g[j].commits >= 1 && UserKey(g[j]) == ks[j] {
      var f := FirstIndex(commits, ks[j]);
      CountPositive(commits, f);
    }
    forall i | 0 <= i < |commits| ensures exists j :: 0 <= j < |g| && UserKey(g[j]) == Key(commits[i]) {
      assert HasKey(commits, Key(commits[i]));
    }
  }

  lemma {:induction false} CountPositive(s: seq<CommitInfo>, i: nat)
    requires i < |s|
    ensures Count(s, Key(s[i])) >= 1
    decreases |s|
  {
    if i < |s| - 1 {
      assert s[..|s| - 1][i] == s[i];
      CountPositive(s[..|s| - 1], i);
    }
  }

  // ---------------------------------------------------------------------------
  // The sort: `(a, b) => b.commits - a.commits`, stable

  /** `u` placed before the first entry with no more commits than it. */
  function Insert(u: UserInfo, sorted: seq<UserInfo>): seq<UserInfo>
    decreases |sorted|
  {
    if sorted == [] || u.commits >= sorted[0].commits then [u] + sorted
    else [sorted[0]] + Insert(u, sorted[1..])
  }

  /** Array.prototype.sort with the count comparator: a stable sort, most commits first. */
  function SortByCount(users: seq<UserInfo>): seq<UserInfo>
    decreases |users|
  {
    if users == [] then [] else Insert(users[0], SortByCount(users[1..]))
  }

  predicate Descending(s: seq<UserInfo>) {
    forall i, j :: 0 <= i < j < |s| ==> s[i].commits >= s[j].commits
  }

  /** The entries with exactly `n` commits, in order. */
  function WithCount(s: seq<UserInfo>, n: nat): seq<UserInfo>
    decreases |s|
  {
    if s == [] then []
    else (if s[0].commits == n then [s[0]] else []) + WithCount(s[1..], n)
  }

  lemma {:induction false} InsertElements(u: UserInfo, s: seq<UserInfo>)
    ensures multiset(Insert(u, s)) == multiset(s) + multiset{u}
    decreases |s|
  {
    if s != [] && u.commits < s[0].commits {
      InsertElements(u, s[1..]);
      assert s == [s[0]] + s[1..];
    }
  }

  lemma {:induction false} InsertDescending(u: UserInfo, s: seq<UserInfo>)
    requires Descending(s)
    ensures Descending(Insert(u, s))
    decreases |s|
  {
    if s == [] || u.commits >= s[0].commits {
      ConsDescending(u, s);
    } else {
      DescendingTail(s);
      InsertDescending(u, s[1..]);
      var rest := Insert(u, s[1..]);
      InsertHead(u, s[1..]);
      assert |s| > 1 ==> s[0].commits >= s[1].commits;
      ConsDescending(s[0], rest);
    }
  }

  /** The first entry after an insertion: `u` itself, or the old first entry. */
  lemma InsertHead(u: UserInfo, s: seq<UserInfo>)
    ensures |Insert(u, s)| == |s| + 1
    ensures Insert(u, s)[0] == (if s == [] || u.commits >= s[0].commits then u else s[0])
  {
    if s != [] && u.commits < s[0].commits {
      InsertHead(u, s[1..]);
    }
  }

  lemma DescendingTail(s: seq<UserInfo>)
    requires Descending(s) && s != []
    ensures Descending(s[1..])
  {
    forall i, j | 0 <= i < j < |s| - 1 ensures s[1..][i].commits >= s[1..][j].commits {
      assert s[1..][i] == s[i + 1] && s[1..][j] == s[j + 1];
    }
  }

  /** An entry with at least the commits of the first one stays in order in front. */
  lemma ConsDescending(x: UserInfo, r: seq<UserInfo>)
    requires Descending(r) && (r == [] || x.commits >= r[0].commits)
    ensures Descending([x] + r)
  {
    var t := [x] + r;
    forall i, j | 0 <= i < j < |t| ensures t[i].commits >= t[j].commits {
      assert t[j] == r[j - 1];
      if i > 0 {
        assert t[i] == r[i - 1];
      } else if j > 1 {
        assert r[0].commits >= r[j - 1].commits;
      }
    }
  }

  /** The entries with `n` commits of a sequence with one more entry in front. */
  lemma WithCountCons(x: UserInfo, s: seq<UserInfo>, n: nat)
    ensures WithCount([x] + s, n) == (if x.commits == n then [x] else []) + WithCount(s, n)
  {
    assert ([x] + s)[1..] == s;
  }

  /** Two sequences of which one is empty can be swapped in front of a third. */
  lemma SwapEmpty<T>(a: seq<T>, b: seq<T>, w: seq<T>)
    requires a == [] || b == []
    ensures a + (b + w) == b + (a + w)
  {
    if a == [] {
      assert a + (b + w) == b + w && a + w == w;
    } else {
      assert b + (a + w) == a + w && b + w == w;
    }
  }

  lemma {:induction false} InsertWithCount(u: UserInfo, s: seq<UserInfo>, n: nat)
    requires Descending(s)
    ensures WithCount(Insert(u, s), n) == (if u.commits == n then [u] else []) + WithCount(s, n)
    decreases |s|
  {
    if s == [] || u.commits >= s[0].commits {
      WithCountCons(u, s, n);
    } else {
      DescendingTail(s);
      InsertWithCount(u, s[1..], n);
      var rest := Insert(u, s[1..]);
      WithCountCons(s[0], rest, n);
      assert [s[0]] + s[1..] == s;
      WithCountCons(s[0], s[1..], n);
      var a := if s[0].commits == n then [s[0]] else [];
      var b := if u.commits == n then [u] else [];
      SwapEmpty(a, b, WithCount(s[1..], n));
    }
  }

  /**
    The sort is a stable descending sort: most commits first, the same
    entries, and among entries with the same count the order of the
    grouping.
   */
  lemma {:induction false} SortIsStable(users: seq<UserInfo>)
    ensures Descending(SortByCount(users))
    ensures multiset(SortByCount(users)) == multiset(users)
    ensures forall n :: WithCount(SortByCount(users), n) == WithCount(users, n)
    decreases |users|
  {
    if users != [] {
      var rest := SortByCount(users[1..]);
      SortIsStable(users[1..]);
      InsertDescending(users[0], rest);
      InsertElements(users[0], rest);
      forall n ensures WithCount(SortByCount(users), n) == WithCount(users, n) {
        InsertWithCount(users[0], rest, n);
      }
      assert users == [users[0]] + users[1..];
    }
  }

  lemma {:induction false} InsertTotal(u: UserInfo, s: seq<UserInfo>)
    ensures TotalCommits(Insert(u, s)) == u.commits + TotalCommits(s)
    decreases |s|
  {
    if s != [] && u.commits < s[0].commits {
      InsertTotal(u, s[1..]);
      assert ([s[0]] + Insert(u, s[1..]))[1..] == Insert(u, s[1..]);
    } else {
      assert ([u] + s)[1..] == s;
    }
  }

  /** Sorting keeps the total: the sorted author list still accounts for every commit. */
  lemma {:induction false} SortKeepsTotal(users: seq<UserInfo>)
    ensures TotalCommits(SortByCount(users)) == TotalCommits(users)
    decreases |users|
  {
    if users != [] {
      SortKeepsTotal(users[1..]);
      InsertTotal(users[0], SortByCount(users[1..]));
    }
  }
}
