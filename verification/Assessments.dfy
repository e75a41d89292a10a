/** The result of an assessment: its blockers and warnings, their serialised form, and the
    token with which a user acknowledges the warnings. */
module Assessments {

  import opened Options

  /** Why a revision, or a whole request, may not land. */
  datatype Reason =
    | PathNotValid
    | LandingInProgress
    | NoVerifiedEmail
    | PathMixesRepos
    | PathWithoutRepo
    | PathNotLandable
    | LandingRepoMissing
    | AccessExpired(access: string)
    | InsufficientPermissions(access: string)
    | RepoUnset
    | RepoNotSupported
    | MultipleOpenParents
    | OpenParentBlocked(id: int)
    | OpenParentOtherRepo(id: int)
    | RevisionClosed
    | DiffNotLatest
    | Local(message: string)
    | OpenAncestorBlocked

  datatype RevisionWarning = RevisionWarning(i: int, display: string, revisionId: string, details: string, articulated: bool) {
    function ToKey(): Key {
      Key(i, revisionId, details)
    }

    function ToInstance(): Instance {
      Instance(revisionId, details, articulated)
    }
  }

  /** What a token commits to. */
  datatype Key = Key(i: int, revisionId: string, details: string)

  /** The SHA-256 hash of the JSON text of a list of keys; both steps are taken as injective. */
  datatype Token = Token(serialized: seq<Key>)

  datatype Instance = Instance(revisionId: string, details: string, articulated: bool)

  datatype Bucket = Bucket(id: int, display: string, articulated: bool, instances: seq<Instance>)

  // ---------------------------------------------------------------------------
  // The order by which the keys are sorted
  // ---------------------------------------------------------------------------

  predicate StringLeq(s: string, t: string)
    decreases |s|
  {
    s == [] || (t != [] && (s[0] < t[0] || (s[0] == t[0] && StringLeq(s[1..], t[1..]))))
  }

  predicate KeyLeq(a: Key, b: Key) {
    || a.i < b.i
    || (a.i == b.i && a.revisionId != b.revisionId && StringLeq(a.revisionId, b.revisionId))
    || (a.i == b.i && a.revisionId == b.revisionId && StringLeq(a.details, b.details))
  }

  lemma {:induction false} StringLeqTotalOrder(s: string, t: string, u: string)
    ensures StringLeq(s, s)
    ensures StringLeq(s, t) || StringLeq(t, s)
    ensures StringLeq(s, t) && StringLeq(t, s) ==> s == t
    ensures StringLeq(s, t) && StringLeq(t, u) ==> StringLeq(s, u)
    decreases |s|
  {
    if s != [] {
      StringLeqTotalOrder(s[1..], if t == [] then [] else t[1..], if u == [] then [] else u[1..]);
      assert s == [s[0]] + s[1..];
      assert t != [] ==> t == [t[0]] + t[1..];
    }
  }

  lemma KeyLeqTotalOrder(a: Key, b: Key, c: Key)
    ensures KeyLeq(a, b) || KeyLeq(b, a)
    ensures KeyLeq(a, b) && KeyLeq(b, a) ==> a == b
    ensures KeyLeq(a, b) && KeyLeq(b, c) ==> KeyLeq(a, c)
  {
    StringLeqTotalOrder(a.revisionId, b.revisionId, c.revisionId);
    StringLeqTotalOrder(c.revisionId, b.revisionId, a.revisionId);
    StringLeqTotalOrder(a.details, b.details, c.details);
  }

  ghost predicate SortedKeys(s: seq<Key>) {
    forall i, j | 0 <= i < j < |s| :: KeyLeq(s[i], s[j])
  }

  function Insert(k: Key, s: seq<Key>): (r: seq<Key>)
    ensures multiset(r) == multiset(s) + multiset{k}
    decreases |s|
  {
    if s == [] || KeyLeq(k, s[0]) then
      assert [k] + s == [k] + s;
      [k] + s
    else
      assert s == [s[0]] + s[1..];
      [s[0]] + Insert(k, s[1..])
  }

  function Sort(s: seq<Key>): (r: seq<Key>)
    ensures multiset(r) == multiset(s)
    decreases |s|
  {
    if s == [] then
      []
    else
      assert s == [s[0]] + s[1..];
      Insert(s[0], Sort(s[1..]))
  }

  lemma {:induction false} InsertSorted(k: Key, s: seq<Key>)
    requires SortedKeys(s)
    ensures SortedKeys(Insert(k, s))
    decreases |s|
  {
    if s == [] {
    } else if KeyLeq(k, s[0]) {
      forall j | 0 <= j < |s|
        ensures KeyLeq(k, s[j])
      {
        KeyLeqTotalOrder(k, s[0], s[j]);
      }
    } else {
      InsertSorted(k, s[1..]);
      KeyLeqTotalOrder(k, s[0], k);
      var rest := Insert(k, s[1..]);
      forall j | 0 <= j < |rest|
        ensures KeyLeq(s[0], rest[j])
      {
        assert rest[j] in multiset(rest);
        assert rest[j] == k || rest[j] in s[1..];
      }
    }
  }

  lemma {:induction false} SortSorted(s: seq<Key>)
    ensures SortedKeys(Sort(s))
    decreases |s|
  {
    if s != [] {
      SortSorted(s[1..]);
      InsertSorted(s[0], Sort(s[1..]));
    }
  }

  lemma SameHead(a: seq<Key>, b: seq<Key>)
    requires SortedKeys(a) && SortedKeys(b) && multiset(a) == multiset(b) && a != [] && b != []
    ensures a[0] == b[0]
  {
    assert a[0] in multiset(b) && b[0] in multiset(a);
    var i :| 0 <= i < |b| && b[i] == a[0];
    var j :| 0 <= j < |a| && a[j] == b[0];
    KeyLeqTotalOrder(a[0], b[0], a[0]);
    hide KeyLeq;
  }

  lemma TailMultiset(a: seq<Key>)
    requires a != []
    ensures multiset(a[1..]) == multiset(a) - multiset{a[0]}
  {
    assert a == [a[0]] + a[1..];
  }

  /** A sorted list is determined by its multiset of elements. */
  lemma {:induction false} SortedUnique(a: seq<Key>, b: seq<Key>)
    requires SortedKeys(a) && SortedKeys(b) && multiset(a) == multiset(b)
    ensures a == b
    decreases |a|
  {
    hide KeyLeq;
    assert |a| == |multiset(a)| == |multiset(b)| == |b|;
    if a != [] {
      SameHead(a, b);
      TailMultiset(a);
      TailMultiset(b);
      SortedUnique(a[1..], b[1..]);
      assert a == [a[0]] + a[1..] && b == [b[0]] + b[1..];
    }
  }

  // ---------------------------------------------------------------------------
  // Confirmation tokens
  // ---------------------------------------------------------------------------

  function Keys(warnings: seq<RevisionWarning>): (keys: seq<Key>)
    ensures |keys| == |warnings|
  {
    seq(|warnings|, i requires 0 <= i < |warnings| => warnings[i].ToKey())
  }

  function ConfirmationToken(warnings: seq<RevisionWarning>): Option<Token> {
    if warnings == [] then None else Some(Token(Sort(Keys(warnings))))
  }

  /** What is acknowledged of each warning: its check, its revision and its details. */
  function Acknowledged(warnings: seq<RevisionWarning>): (r: seq<(int, string, string)>)
    ensures |r| == |warnings|
    ensures forall k | 0 <= k < |r| :: r[k] == (warnings[k].i, warnings[k].revisionId, warnings[k].details)
  {
    seq(|warnings|, k requires 0 <= k < |warnings| => (warnings[k].i, warnings[k].revisionId, warnings[k].details))
  }

  lemma {:induction false} KeyCount(warnings: seq<RevisionWarning>, i: int, revisionId: string, details: string)
    ensures multiset(Keys(warnings))[Key(i, revisionId, details)] == multiset(Acknowledged(warnings))[(i, revisionId, details)]
    decreases |warnings|
  {
    if warnings != [] {
      var n := |warnings| - 1;
      KeyCount(warnings[..n], i, revisionId, details);
      assert Keys(warnings) == Keys(warnings[..n]) + [warnings[n].ToKey()];
      assert Acknowledged(warnings) == Acknowledged(warnings[..n]) + [Acknowledged(warnings)[n]];
    }
  }

  lemma SameKeysIff(a: seq<RevisionWarning>, b: seq<RevisionWarning>)
    ensures multiset(Keys(a)) == multiset(Keys(b)) <==> multiset(Acknowledged(a)) == multiset(Acknowledged(b))
  {
    if multiset(Keys(a)) == multiset(Keys(b)) {
      forall t: (int, string, string)
        ensures multiset(Acknowledged(a))[t] == multiset(Acknowledged(b))[t]
      {
        KeyCount(a, t.0, t.1, t.2);
        KeyCount(b, t.0, t.1, t.2);
      }
    }
    if multiset(Acknowledged(a)) == multiset(Acknowledged(b)) {
      forall k: Key
        ensures multiset(Keys(a))[k] == multiset(Keys(b))[k]
      {
        KeyCount(a, k.i, k.revisionId, k.details);
        KeyCount(b, k.i, k.revisionId, k.details);
      }
    }
  }

  /** Two lists of warnings have the same token exactly when they hold the same warnings, up to
      order, by check, revision and details; an empty list has none. */
  lemma TokenCanonical(a: seq<RevisionWarning>, b: seq<RevisionWarning>)
    ensures ConfirmationToken(a) == ConfirmationToken(b) <==> multiset(Acknowledged(a)) == multiset(Acknowledged(b))
    ensures ConfirmationToken(a) == None <==> a == []
  {
    SameKeysIff(a, b);
    SortSorted(Keys(a));
    SortSorted(Keys(b));
    assert |multiset(Keys(a))| == |a| && |multiset(Keys(b))| == |b|;
    if multiset(Keys(a)) == multiset(Keys(b)) {
      SortedUnique(Sort(Keys(a)), Sort(Keys(b)));
    }
  }

  /** Whoever acknowledged a warning whose details have changed since has another token. */
  lemma ChangedDetailsChangeToken(w: RevisionWarning, details: string)
    requires details != w.details
    ensures ConfirmationToken([w.(details := details)]) != ConfirmationToken([w])
  {
    TokenCanonical([w.(details := details)], [w]);
    assert Acknowledged([w])[0] in multiset(Acknowledged([w]));
    assert Acknowledged([w.(details := details)]) == [(w.i, w.revisionId, details)];
  }

  // ---------------------------------------------------------------------------
  // Buckets
  // ---------------------------------------------------------------------------

  /** The instances of the warnings of check `i`, in their order. */
  function InstancesOf(warnings: seq<RevisionWarning>, i: int): seq<Instance>
    decreases |warnings|
  {
    if warnings == [] then
      []
    else
      var n := |warnings| - 1;
      InstancesOf(warnings[..n], i) + (if warnings[n].i == i then [warnings[n].ToInstance()] else [])
  }

  /** The checks that warn, in the order of their first warning. */
  function Checks(warnings: seq<RevisionWarning>): (order: seq<int>)
    ensures forall i, j | 0 <= i < j < |order| :: order[i] != order[j]
    ensures forall w | w in warnings :: w.i in order
    ensures forall i | i in order :: exists w :: w in warnings && w.i == i
    decreases |warnings|
  {
    if warnings == [] then
      []
    else
      var n := |warnings| - 1;
      var earlier := Checks(warnings[..n]);
      assert forall w | w in warnings :: w in warnings[..n] || w == warnings[n];
      if warnings[n].i in earlier then earlier else earlier + [warnings[n].i]
  }

  function FirstWarning(warnings: seq<RevisionWarning>, i: int): (w: RevisionWarning)
    requires exists w :: w in warnings && w.i == i
    ensures w in warnings && w.i == i
    decreases |warnings|
  {
    if warnings[0].i == i then warnings[0] else FirstWarning(warnings[1..], i)
  }

  lemma {:induction false} FirstWarningIs(warnings: seq<RevisionWarning>, k: nat)
    requires k < |warnings| && forall j | 0 <= j < k :: warnings[j].i != warnings[k].i
    ensures FirstWarning(warnings, warnings[k].i) == warnings[k]
    decreases k
  {
    if k > 0 {
      FirstWarningIs(warnings[1..], k - 1);
    }
  }

  ghost predicate IsBucket(warnings: seq<RevisionWarning>, i: int, b: Bucket)
    requires exists w :: w in warnings && w.i == i
  {
    var first := FirstWarning(warnings, i);
    b == Bucket(i, first.display, first.articulated, InstancesOf(warnings, i))
  }

  /** One bucket per check that warns, in the order of their first warnings, each holding
      exactly the warnings of its check. */
  ghost predicate IsBucketing(warnings: seq<RevisionWarning>, order: seq<int>, buckets: map<int, Bucket>) {
    && order == Checks(warnings)
    && (forall i :: i in buckets <==> i in order)
    && (forall i | i in order :: IsBucket(warnings, i, buckets[i]))
  }

  lemma {:induction false} FirstWarningStable(warnings: seq<RevisionWarning>, w: RevisionWarning, i: int)
    requires exists v :: v in warnings && v.i == i
    ensures exists v :: v in warnings + [w] && v.i == i
    ensures FirstWarning(warnings + [w], i) == FirstWarning(warnings, i)
    decreases |warnings|
  {
    var v :| v in warnings && v.i == i;
    assert v in warnings + [w];
    if warnings[0].i != i {
      FirstWarningStable(warnings[1..], w, i);
      assert (warnings + [w])[1..] == warnings[1..] + [w];
    }
  }

  lemma {:induction false} FirstWarningNew(warnings: seq<RevisionWarning>, w: RevisionWarning)
    requires forall v | v in warnings :: v.i != w.i
    ensures w in warnings + [w] && FirstWarning(warnings + [w], w.i) == w
    decreases |warnings|
  {
    assert w == (warnings + [w])[|warnings|];
    if warnings != [] {
      FirstWarningNew(warnings[1..], w);
      assert (warnings + [w])[1..] == warnings[1..] + [w];
      assert warnings[0] in warnings;
    }
  }

  lemma {:induction false} NoInstances(warnings: seq<RevisionWarning>, i: int)
    requires forall w | w in warnings :: w.i != i
    ensures InstancesOf(warnings, i) == []
    decreases |warnings|
  {
    if warnings != [] {
      NoInstances(warnings[..|warnings| - 1], i);
      assert warnings[|warnings| - 1] in warnings;
    }
  }

  lemma NoBuckets()
    ensures IsBucketing([], [], map[])
  {
  }

  lemma Snoc(warnings: seq<RevisionWarning>, w: RevisionWarning)
    ensures Checks(warnings + [w]) == if w.i in Checks(warnings) then Checks(warnings) else Checks(warnings) + [w.i]
    ensures forall i ::
      InstancesOf(warnings + [w], i) ==
      InstancesOf(warnings, i) + (if w.i == i then [Instance(w.revisionId, w.details, w.articulated)] else [])
  {
    assert (warnings + [w])[..|warnings|] == warnings;
  }

  /** Adding one warning to the buckets. */
  lemma BucketStep(warnings: seq<RevisionWarning>, w: RevisionWarning, order: seq<int>, buckets: map<int, Bucket>)
    requires IsBucketing(warnings, order, buckets)
    ensures var isNew := w.i !in buckets;
      var b := if isNew then Bucket(w.i, w.display, w.articulated, []) else buckets[w.i];
      IsBucketing(warnings + [w], if isNew then order + [w.i] else order,
        buckets[w.i := b.(instances := b.instances + [Instance(w.revisionId, w.details, w.articulated)])])
  {
    hide FirstWarning, InstancesOf, Checks;
    var all := warnings + [w];
    Snoc(warnings, w);
    forall i | i in order
      ensures exists v :: v in all && v.i == i
      ensures FirstWarning(all, i) == FirstWarning(warnings, i)
    {
      FirstWarningStable(warnings, w, i);
    }
    if w.i !in buckets {
      FirstWarningNew(warnings, w);
      NoInstances(warnings, w.i);
    }
  }

  /** The content of the buckets as one list of (check, instance) pairs. */
  function Unbucket(order: seq<int>, buckets: map<int, Bucket>): seq<(int, Instance)>
    requires forall i | i in order :: i in buckets
    decreases |order|
  {
    if order == [] then
      []
    else
      var i := order[|order| - 1];
      Unbucket(order[..|order| - 1], buckets) + Tagged(i, buckets[i].instances)
  }

  function Tagged(i: int, instances: seq<Instance>): (r: seq<(int, Instance)>)
    ensures |r| == |instances|
  {
    seq(|instances|, k requires 0 <= k < |instances| => (i, instances[k]))
  }

  /** The warnings themselves as a list of (check, instance) pairs. */
  function AllTagged(warnings: seq<RevisionWarning>): (r: seq<(int, Instance)>)
    ensures |r| == |warnings|
    ensures forall k | 0 <= k < |r| ::
      r[k] == (warnings[k].i, Instance(warnings[k].revisionId, warnings[k].details, warnings[k].articulated))
  {
    seq(|warnings|, k requires 0 <= k < |warnings| => (warnings[k].i, warnings[k].ToInstance()))
  }

  lemma {:induction false} TaggedCount(warnings: seq<RevisionWarning>, i: int, x: (int, Instance))
    ensures multiset(Tagged(i, InstancesOf(warnings, i)))[x] ==
            if x.0 == i then multiset(AllTagged(warnings))[x] else 0
    decreases |warnings|
  {
    if warnings == [] {
    } else {
      var n := |warnings| - 1;
      TaggedCount(warnings[..n], i, x);
      var w := warnings[n];
      assert AllTagged(warnings) == AllTagged(warnings[..n]) + [(w.i, w.ToInstance())];
      assert Tagged(i, InstancesOf(warnings, i)) ==
        Tagged(i, InstancesOf(warnings[..n], i)) + (if w.i == i then [(i, w.ToInstance())] else []);
    }
  }

  lemma {:induction false} UnbucketCount(warnings: seq<RevisionWarning>, order: seq<int>, buckets: map<int, Bucket>, x: (int, Instance))
    requires forall i, j | 0 <= i < j < |order| :: order[i] != order[j]
    requires forall i | i in order :: i in buckets && buckets[i].instances == InstancesOf(warnings, i)
    ensures multiset(Unbucket(order, buckets))[x] ==
            if x.0 in order then multiset(AllTagged(warnings))[x] else 0
    decreases |order|
  {
    hide InstancesOf;
    if order != [] {
      var n := |order| - 1;
      var earlier, last := Unbucket(order[..n], buckets), Tagged(order[n], buckets[order[n]].instances);
      UnbucketCount(warnings, order[..n], buckets, x);
      TaggedCount(warnings, order[n], x);
      assert multiset(earlier + last)[x] == multiset(earlier)[x] + multiset(last)[x];
      assert order == order[..n] + [order[n]];
      assert order[n] !in order[..n];
    }
  }

  /** Bucketing loses and duplicates nothing. */
  lemma BucketsConserve(warnings: seq<RevisionWarning>, order: seq<int>, buckets: map<int, Bucket>)
    requires IsBucketing(warnings, order, buckets)
    ensures multiset(Unbucket(order, buckets)) == multiset(AllTagged(warnings))
  {
    var all := AllTagged(warnings);
    forall x: (int, Instance)
      ensures multiset(Unbucket(order, buckets))[x] == multiset(all)[x]
    {
      UnbucketCount(warnings, order, buckets, x);
      if x in all {
        var k :| 0 <= k < |all| && all[k] == x;
        assert warnings[k] in warnings;
      }
    }
  }

  // ---------------------------------------------------------------------------
  // The assessment object
  // ---------------------------------------------------------------------------

  datatype Refusal = Blocked | Unacknowledged | WarningsChanged

  class StackAssessment {
    var blockers: seq<Reason>
    var warnings: seq<RevisionWarning>

    constructor (blockers: seq<Reason>, warnings: seq<RevisionWarning>)
      ensures this.blockers == blockers && this.warnings == warnings
    {
      this.blockers, this.warnings := blockers, warnings;
    }

    /** Puts one warning into its bucket, which is opened if it is the first one of its check. */
    static method AddToBucket(order: seq<int>, buckets: map<int, Bucket>, w: RevisionWarning)
      returns (order': seq<int>, buckets': map<int, Bucket>)
      ensures order' == if w.i in buckets then order else order + [w.i]
      ensures buckets' == buckets[w.i :=
        var b := if w.i in buckets then buckets[w.i] else Bucket(w.i, w.display, w.articulated, []);
        b.(instances := b.instances + [Instance(w.revisionId, w.details, w.articulated)])]
    {
      order', buckets' := order, buckets;
      if w.i !in buckets {
        buckets' := buckets'[w.i := Bucket(w.i, w.display, w.articulated, [])];
        order' := order' + [w.i];
      }
      var bucket := buckets'[w.i];
      buckets' := buckets'[w.i := bucket.(instances := bucket.instances + [w.ToInstance()])];
    }

    /** The serialised form: warnings bucketed by check, and the confirmation token. */
    method ToDict() returns (order: seq<int>, buckets: map<int, Bucket>, token: Option<Token>)
      ensures IsBucketing(warnings, order, buckets)
      ensures token == ConfirmationToken(warnings)
    {
      hide *;
      order, buckets := [], map[];
      var all := warnings;
      NoBuckets();
      assert all[..0] == [];
      for n := 0 to |all|
        invariant IsBucketing(all[..n], order, buckets)
      {
        var w := all[n];
        BucketStep(all[..n], w, order, buckets);
        order, buckets := AddToBucket(order, buckets, w);
        assert all[..n + 1] == all[..n] + [w];
      }
      assert all[..|all|] == all;
      token := ConfirmationToken(warnings);
    }

    /** Proceeds exactly when nothing blocks and the token acknowledges the current warnings:
        the list of warnings it was made from is, up to order, the current one. */
    method RaiseIfBlockedOrUnacknowledged(token: Option<Token>) returns (r: Result<(), Refusal>)
      ensures r.Ok? <==> blockers == [] && token == ConfirmationToken(warnings)
      ensures forall shown | token == ConfirmationToken(shown) ::
        r.Ok? <==> blockers == [] && multiset(Acknowledged(shown)) == multiset(Acknowledged(warnings))
      ensures r == Err(Blocked) <==> blockers != []
      ensures r == Err(Unacknowledged) <==> blockers == [] && warnings != [] && token == None
      ensures r == Err(WarningsChanged) <==> blockers == [] && token != None && token != ConfirmationToken(warnings)
    {
      forall shown
        ensures ConfirmationToken(shown) == ConfirmationToken(warnings) <==> multiset(Acknowledged(shown)) == multiset(Acknowledged(warnings))
      {
        TokenCanonical(shown, warnings);
      }
      if blockers != [] {
        return Err(Blocked);
      }
      var _, _, current := ToDict();
      if current != token {
        if token == None {
          return Err(Unacknowledged);
        }
        return Err(WarningsChanged);
      }
      return Ok(());
    }
  }
}
