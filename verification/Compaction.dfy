/** How compactions of a session compose, with and without distinct identifiers. */
module Compaction {
  import opened Collections
  import opened Numbers
  import opened Session

  // ----- A compaction in parts -----

  lemma Slices(a: seq<Message>, b: seq<Message>)
    ensures (a + b)[..|a|] == a && (a + b)[|a|..] == b && (a + b)[..|a + b|] == a + b
  {
  }

  /** Identifiers distinct or not: what must stay of the early messages, then the recent ones, without repeats. */
  lemma CompactedSplit(early: seq<Message>, recent: seq<Message>)
    ensures Compacted(early + recent, |recent|) == if early == [] then recent else Dedup(Filter(early, Must) + recent)
  {
    hide Dedup;
    hide Must;
    var ms := early + recent;
    Slices(early, recent);
    if early == [] {
      assert ms == recent;
    } else {
      SelectedParts(ms, |recent|, |ms|);
      assert recent == [] ==> Filter(early, Must) + recent == Filter(early, Must);
    }
  }

  /** Of each identifier that was not seen before, the first message. */
  function Fresh(ms: seq<Message>, seen: set<string>): (news: seq<Message>)
    ensures |news| <= |ms|
  {
    if ms == [] then []
    else
      var front, last := ms[..|ms| - 1], ms[|ms| - 1];
      Fresh(front, seen) + if last.id in seen + Ids(front) then [] else [last]
  }

  lemma IdsAppend(a: seq<Message>, b: seq<Message>)
    ensures Ids(a + b) == Ids(a) + Ids(b)
  {
    assert forall m | m in a :: m in a + b;
    assert forall m | m in b :: m in a + b;
  }

  lemma {:induction false} DedupAppend(a: seq<Message>, b: seq<Message>)
    ensures Dedup(a + b) == Dedup(a) + Fresh(b, Ids(a))
  {
    hide Ids;
    if b == [] {
      assert a + b == a;
    } else {
      var front, last := b[..|b| - 1], b[|b| - 1];
      DedupAppend(a, front);
      IdsAppend(a, front);
      assert (a + b)[..|a + b| - 1] == a + front;
    }
  }

  lemma {:induction false} FreshIsNew(ms: seq<Message>, seen: set<string>, m: Message)
    requires m in Fresh(ms, seen)
    ensures m.id !in seen
  {
    if ms != [] {
      var front := ms[..|ms| - 1];
      if m in Fresh(front, seen) {
        FreshIsNew(front, seen, m);
      }
    }
  }

  lemma {:induction false} DedupMember(ms: seq<Message>, m: Message)
    requires m in Dedup(ms)
    ensures m in ms
  {
    hide Ids;
    if ms != [] {
      var front := ms[..|ms| - 1];
      if m in Dedup(front) {
        DedupMember(front, m);
      }
    }
  }

  lemma FilterFilter(ms: seq<Message>)
    ensures Filter(Filter(ms, Must), Must) == Filter(ms, Must)
  {
    forall m | m in Filter(ms, Must)
      ensures Must(m)
    {
      FilterMember(ms, Must, m);
    }
    FilterAll(Filter(ms, Must), Must);
  }

  lemma PartsCompacted(early: seq<Message>, recent: seq<Message>)
    requires UniqueIds(early + recent)
    ensures Compacted(early + recent, |recent|) == Filter(early, Must) + recent
  {
    var ms := early + recent;
    CompactedParts(ms, |recent|);
    assert ms[..|ms| - |recent|] == early && ms[|ms| - |recent|..] == recent;
  }

  // ----- Distinct identifiers -----

  /** Compacting to fewer recent messages afterwards. */
  lemma ShorterWindow(early: seq<Message>, middle: seq<Message>, last: seq<Message>)
    requires UniqueIds(early + (middle + last))
    ensures Compacted(Compacted(early + (middle + last), |middle + last|), |last|)
         == Compacted(early + (middle + last), |last|)
  {
    hide Compacted;
    hide UniqueIds;
    var ms, once, filtered := early + (middle + last), Filter(early, Must) + (middle + last), Filter(early, Must);
    PartsCompacted(early, middle + last);
    CompactedSubsequence(ms, |middle + last|);
    SubsequenceUnique(once, ms);
    assert once == filtered + middle + last && ms == early + middle + last;
    PartsCompacted(filtered + middle, last);
    PartsCompacted(early + middle, last);
    FilterAppend(filtered, middle, Must);
    FilterAppend(early, middle, Must);
    FilterFilter(early);
  }

  // ----- A second window at least as long as the first: no condition -----

  lemma MustStay(early: seq<Message>, front: seq<Message>)
    requires forall m | m in front :: m in Dedup(Filter(early, Must))
    ensures Filter(front, Must) == front
  {
    forall m | m in front
      ensures Must(m)
    {
      DedupMember(Filter(early, Must), m);
      FilterMember(early, Must, m);
    }
    FilterAll(front, Must);
  }

  lemma LongerWindow(early: seq<Message>, recent: seq<Message>, j: nat)
    requires |recent| <= j
    ensures var once := Dedup(Filter(early, Must) + recent); Compacted(once, j) == once
  {
    hide Compacted;
    hide Dedup;
    hide Must;
    hide Fresh;
    var filtered := Filter(early, Must);
    var once := Dedup(filtered + recent);
    ShortList(once, j);
    if j < |once| {
      var cut := |once| - j;
      DedupAppend(filtered, recent);
      Slices(once[..cut], once[cut..]);
      CutWithin(Dedup(filtered), Fresh(recent, Ids(filtered)), cut);
      MustStay(early, once[..cut]);
      DedupUnique(filtered + recent);
      assert once == once[..cut] + once[cut..];
      PartsCompacted(once[..cut], once[cut..]);
    }
  }

  lemma ShortList(ms: seq<Message>, k: nat)
    ensures |ms| <= k ==> Compacted(ms, k) == ms
  {
  }

  lemma CutWithin(a: seq<Message>, b: seq<Message>, cut: nat)
    requires cut <= |a|
    ensures (a + b)[..cut] == a[..cut] && forall m | m in a[..cut] :: m in a
  {
  }

  /** Compacting again to at least as many messages changes nothing; in particular compaction is idempotent. */
  lemma CompactedTwice(ms: seq<Message>, k: nat, j: nat)
    requires k <= j
    ensures Compacted(Compacted(ms, k), j) == Compacted(ms, k)
  {
    hide Selected;
    hide Dedup;
    if k < |ms| {
      var early, recent := ms[..|ms| - k], ms[|ms| - k..];
      assert ms == early + recent;
      CompactedSplit(early, recent);
      LongerWindow(early, recent, j);
    }
  }

  /** With distinct identifiers two compactions are one: to the smaller of the two windows. */
  lemma CompactionsCompose(ms: seq<Message>, k: nat, j: nat)
    requires UniqueIds(ms)
    ensures Compacted(Compacted(ms, k), j) == Compacted(ms, Min(j, k))
  {
    hide Selected;
    hide Dedup;
    hide UniqueIds;
    if k <= j {
      CompactedTwice(ms, k, j);
    } else if k < |ms| {
      var early, middle, last := ms[..|ms| - k], ms[|ms| - k..|ms| - j], ms[|ms| - j..];
      assert ms == early + (middle + last);
      ShorterWindow(early, middle, last);
    }
  }

  function CompactedByAll(ms: seq<Message>, windows: seq<nat>): seq<Message> {
    if windows == [] then ms
    else Compacted(CompactedByAll(ms, windows[..|windows| - 1]), windows[|windows| - 1])
  }

  function Least(windows: seq<nat>): nat
    requires windows != []
  {
    if |windows| == 1 then windows[0]
    else Min(windows[|windows| - 1], Least(windows[..|windows| - 1]))
  }

  /** Any number of compactions is the one to the least window: neither order nor repetition matters. */
  lemma {:induction false} CompactionsCollapse(ms: seq<Message>, windows: seq<nat>)
    requires UniqueIds(ms) && windows != []
    ensures CompactedByAll(ms, windows) == Compacted(ms, Least(windows))
  {
    hide Compacted;
    var front := windows[..|windows| - 1];
    if |windows| > 1 {
      CompactionsCollapse(ms, front);
      CompactionsCompose(ms, Least(front), windows[|windows| - 1]);
    } else {
      assert CompactedByAll(ms, front) == ms;
    }
  }

  // ----- A second window shorter than the first: the exact condition -----

  /**
   Of the messages that share an identifier, the first, `p`, is an ordinary one, while a later one, `q`, must
   stay. The first compaction then keeps the one that the second drops.
   */
  predicate Hidden(before: seq<Message>, p: nat, q: nat) {
    && p < q < |before|
    && before[p].id == before[q].id && before[p].id !in Ids(before[..p])
    && !Must(before[p]) && Must(before[q])
  }

  ghost predicate NoneHidden(before: seq<Message>) {
    forall p: nat, q: nat :: !Hidden(before, p, q)
  }

  /**
   The messages before its last ones that the second window reaches back to, because some of those last ones
   were repeats and are gone.
   */
  function Reached(before: seq<Message>, last: seq<Message>): seq<Message> {
    var kept, free := Dedup(before), |last| - |Fresh(last, Ids(before))|;
    kept[if free <= |kept| then |kept| - free else 0..]
  }

  /** They must stay anyhow, except for ordinary ones at the end which come again, the same, as first of the last. */
  ghost predicate Reappear(reached: seq<Message>, added: seq<Message>, news: seq<Message>) {
    exists ordinary :: reached == Filter(reached, Must) + ordinary && news == ordinary + added
  }

  ghost predicate WindowsAgree(early: seq<Message>, middle: seq<Message>, last: seq<Message>) {
    var before := Filter(early, Must) + middle;
    && NoneHidden(before)
    && Reappear(Reached(before, last), Fresh(last, Ids(before)), Fresh(last, Ids(Filter(before, Must))))
  }

  lemma ReappearIff(reached: seq<Message>, added: seq<Message>, news: seq<Message>)
    ensures Reappear(reached, added, news) <==> reached + added == Filter(reached, Must) + news
  {
    var must := Filter(reached, Must);
    FilterLength(reached, Must);
    if reached + added == must + news {
      var ordinary := reached[|must|..];
      assert must == (must + news)[..|must|] == (reached + added)[..|must|] == reached[..|must|];
      assert news == (must + news)[|must|..] == (reached + added)[|must|..] == ordinary + added;
      assert reached == must + ordinary;
    }
    if Reappear(reached, added, news) {
      var ordinary :| reached == must + ordinary && news == ordinary + added;
      assert (must + ordinary) + added == must + (ordinary + added);
    }
  }

  // ----- Hidden messages -----

  lemma {:induction false} FirstWith(ms: seq<Message>, id: string) returns (p: nat)
    requires id in Ids(ms)
    ensures p < |ms| && ms[p].id == id && id !in Ids(ms[..p])
  {
    var front, last := ms[..|ms| - 1], ms[|ms| - 1];
    if id in Ids(front) {
      p := FirstWith(front, id);
      assert front[..p] == ms[..p];
    } else {
      IdsPush(front, last);
      assert ms == front + [last];
      p := |ms| - 1;
    }
  }

  lemma MustIds(ms: seq<Message>, q: nat)
    requires q < |ms| && Must(ms[q])
    ensures ms[q].id in Ids(Filter(ms, Must))
  {
    FilterMember(ms, Must, ms[q]);
  }

  lemma MustWith(ms: seq<Message>, id: string) returns (q: nat)
    requires id in Ids(Filter(ms, Must))
    ensures q < |ms| && ms[q].id == id && Must(ms[q])
  {
    var m :| m in Filter(ms, Must) && m.id == id;
    FilterMember(ms, Must, m);
    q :| q < |ms| && ms[q] == m;
  }

  lemma HiddenFront(ms: seq<Message>, p: nat, q: nat)
    requires q < |ms| - 1
    ensures Hidden(ms[..|ms| - 1], p, q) <==> Hidden(ms, p, q)
  {
    if p < q {
      assert ms[..|ms| - 1][..p] == ms[..p];
    }
  }

  /** The last message hides no other, and is hidden itself only if it must stay and all its namesakes are ordinary. */
  lemma HiddenLast(ms: seq<Message>)
    requires ms != []
    ensures var front, last := ms[..|ms| - 1], ms[|ms| - 1];
      NoneHidden(ms) <==> NoneHidden(front)
                          && !(Must(last) && last.id in Ids(front) && last.id !in Ids(Filter(front, Must)))
  {
    hide Must;
    hide Ids;
    var n := |ms| - 1;
    var front, last := ms[..n], ms[n];
    forall p: nat, q: nat | q < n
      ensures Hidden(front, p, q) <==> Hidden(ms, p, q)
    {
      HiddenFront(ms, p, q);
    }
    assert NoneHidden(ms) <==> NoneHidden(front) && forall p: nat :: !Hidden(ms, p, n);
    HidesLastIff(ms);
  }

  /** Some message hides the last one, and no other. */
  lemma HidesLastIff(ms: seq<Message>)
    requires ms != []
    ensures var front, n := ms[..|ms| - 1], |ms| - 1;
      NoneHidden(front) ==>
        ((forall p: nat :: !Hidden(ms, p, n))
         <==> !(Must(ms[n]) && ms[n].id in Ids(front) && ms[n].id !in Ids(Filter(front, Must))))
  {
    hide Must;
    hide Ids;
    hide NoneHidden;
    var n := |ms| - 1;
    var front, last := ms[..n], ms[n];
    forall p: nat | Hidden(ms, p, n)
      ensures Must(last) && last.id in Ids(front)
    {
      HiddenHasNamesake(ms, p);
    }
    if Must(last) && last.id in Ids(front) {
      var p := FirstWith(front, last.id);
      assert front[..p] == ms[..p];
      if last.id in Ids(Filter(front, Must)) {
        var q := MustWith(front, last.id);
        forall p: nat | Hidden(ms, p, n)
          ensures Hidden(front, p, q)
        {
          LastNotHidden(ms, p, q);
          HiddenFront(ms, p, q);
        }
        NoneHiddenAt(front, q);
      } else {
        NotMust(front, p);
        assert Hidden(ms, p, n);
      }
    }
  }

  lemma HiddenHasNamesake(ms: seq<Message>, p: nat)
    requires ms != [] && Hidden(ms, p, |ms| - 1)
    ensures Must(ms[|ms| - 1]) && ms[|ms| - 1].id in Ids(ms[..|ms| - 1])
  {
    AllInIds(ms[..|ms| - 1]);
    assert ms[..|ms| - 1][p] == ms[p];
  }

  lemma NoneHiddenAt(ms: seq<Message>, q: nat)
    ensures NoneHidden(ms) ==> forall p: nat :: !Hidden(ms, p, q)
  {
  }

  lemma NotMust(ms: seq<Message>, p: nat)
    requires p < |ms| && ms[p].id !in Ids(Filter(ms, Must))
    ensures !Must(ms[p])
  {
    FilterMember(ms, Must, ms[p]);
  }

  lemma AllInIds(ms: seq<Message>)
    ensures forall i | 0 <= i < |ms| :: ms[i].id in Ids(ms)
  {
  }

  /** What hides the last message hides an earlier one with the same identifier too. */
  lemma LastNotHidden(ms: seq<Message>, p: nat, q: nat)
    requires ms != [] && Hidden(ms, p, |ms| - 1)
    requires q < |ms| - 1 && ms[q].id == ms[|ms| - 1].id && Must(ms[q])
    ensures Hidden(ms, p, q)
  {
    FirstIsLeast(ms, p, q);
  }

  lemma FirstIsLeast(ms: seq<Message>, p: nat, q: nat)
    requires p < |ms| && q < |ms| && ms[p].id == ms[q].id && ms[p].id !in Ids(ms[..p])
    ensures p <= q
  {
    AllInIds(ms[..p]);
    assert forall i | 0 <= i < p :: ms[..p][i] == ms[i];
  }

  /** Filtering and removing repeats commute exactly when no message that must stay is hidden. */
  lemma {:induction false} HiddenIff(ms: seq<Message>)
    ensures Dedup(Filter(ms, Must)) == Filter(Dedup(ms), Must) <==> NoneHidden(ms)
  {
    hide Must;
    hide Ids;
    hide Hidden;
    if ms == [] {
      NothingHidden();
    } else {
      var front, last := ms[..|ms| - 1], ms[|ms| - 1];
      HiddenIff(front);
      HiddenLast(ms);
      StepEqualIff(front, last);
      assert ms == front + [last];
    }
  }

  lemma NothingHidden()
    ensures NoneHidden([])
  {
  }

  lemma DedupPush(ms: seq<Message>, m: Message)
    ensures Dedup(ms + [m]) == Dedup(ms) + if m.id in Ids(ms) then [] else [m]
  {
    assert (ms + [m])[..|ms|] == ms;
  }

  lemma FilterPush(ms: seq<Message>, m: Message)
    ensures Filter(ms + [m], Must) == Filter(ms, Must) + if Must(m) then [m] else []
  {
    FilterAppend(ms, [m], Must);
  }

  lemma FilterIds(ms: seq<Message>)
    ensures Ids(Filter(ms, Must)) <= Ids(ms)
  {
    forall m | m in Filter(ms, Must)
      ensures m in ms
    {
      FilterMember(ms, Must, m);
    }
  }

  lemma StepEqualIff(front: seq<Message>, last: Message)
    ensures Dedup(Filter(front + [last], Must)) == Filter(Dedup(front + [last]), Must)
       <==> && Dedup(Filter(front, Must)) == Filter(Dedup(front), Must)
            && !(Must(last) && last.id in Ids(front) && last.id !in Ids(Filter(front, Must)))
  {
    hide Must;
    hide Dedup;
    hide Ids;
    var filtered, kept := Filter(front, Must), Dedup(front);
    FilterPush(front, last);
    DedupPush(front, last);
    FilterIds(front);
    DedupPush(filtered, last);
    FilterPush(kept, last);
    assert filtered + [] == filtered && kept + [] == kept && Dedup(filtered) + [] == Dedup(filtered);
    if Must(last) && last.id in Ids(front) && last.id !in Ids(filtered) {
      KeptMustIds(front);
      assert last in Dedup(filtered) + [last];
      if last in Filter(kept, Must) {
        InDisplay(Filter(kept, Must), last);
      }
    } else if last.id !in Ids(front) && Must(last) {
      AppendSame(Dedup(filtered), Filter(kept, Must), last);
    }
  }

  lemma InDisplay(ms: seq<Message>, m: Message)
    requires m in ms
    ensures m.id in Ids(ms)
  {
  }

  lemma AppendSame(a: seq<Message>, b: seq<Message>, m: Message)
    ensures a + [m] == b + [m] <==> a == b
  {
    if a + [m] == b + [m] {
      assert a == (a + [m])[..|a + [m]| - 1] == (b + [m])[..|b + [m]| - 1] == b;
    }
  }

  lemma KeptMustIds(ms: seq<Message>)
    ensures Ids(Filter(Dedup(ms), Must)) <= Ids(Filter(ms, Must))
  {
    forall m | m in Filter(Dedup(ms), Must)
      ensures m in Filter(ms, Must)
    {
      FilterMember(Dedup(ms), Must, m);
      DedupMember(ms, m);
      FilterMember(ms, Must, m);
    }
  }

  // ----- Both ways of compacting, in parts -----

  /** The messages before those reached. */
  function Passed(before: seq<Message>, last: seq<Message>): seq<Message> {
    Dedup(before)[..|Dedup(before)| - |Reached(before, last)|]
  }

  lemma PassedAndReached(before: seq<Message>, last: seq<Message>)
    ensures Dedup(before) == Passed(before, last) + Reached(before, last)
    ensures Passed(before, last) == [] || |Reached(before, last)| + |Fresh(last, Ids(before))| == |last|
    ensures |Reached(before, last)| + |Fresh(last, Ids(before))| <= |last|
  {
  }

  lemma TwiceParts(before: seq<Message>, last: seq<Message>)
    ensures Compacted(Dedup(before + last), |last|)
         == Filter(Passed(before, last), Must) + (Reached(before, last) + Fresh(last, Ids(before)))
  {
    hide Compacted;
    hide Dedup;
    hide Fresh;
    hide Must;
    hide Passed;
    hide Reached;
    var passed, rest := Passed(before, last), Reached(before, last) + Fresh(last, Ids(before));
    PassedAndReached(before, last);
    DedupAppend(before, last);
    assert Dedup(before + last) == passed + rest;
    if passed == [] {
      assert passed + rest == rest;
      ShortList(rest, |last|);
    } else {
      DedupUnique(before + last);
      PartsCompacted(passed, rest);
    }
  }

  lemma OnceParts(early: seq<Message>, middle: seq<Message>, last: seq<Message>)
    ensures var before := Filter(early, Must) + middle;
      Dedup(Filter(early + middle, Must) + last)
      == Dedup(Filter(before, Must)) + Fresh(last, Ids(Filter(before, Must)))
  {
    hide Must;
    FilterFilter(early);
    FilterAppend(Filter(early, Must), middle, Must);
    FilterAppend(early, middle, Must);
    DedupAppend(Filter(Filter(early, Must) + middle, Must), last);
  }

  // ----- If the results agree, nothing is hidden -----

  lemma {:induction false} FirstIsKept(ms: seq<Message>, p: nat)
    requires p < |ms| && ms[p].id !in Ids(ms[..p])
    ensures ms[p] in Dedup(ms)
  {
    var front := ms[..|ms| - 1];
    if p < |ms| - 1 {
      assert front[..p] == ms[..p];
      FirstIsKept(front, p);
    }
  }

  lemma SameIdSameMessage(ms: seq<Message>, x: Message, y: Message)
    requires UniqueIds(ms) && x in ms && y in ms && x.id == y.id
    ensures x == y
  {
  }

  lemma AgreementShowsMust(before: seq<Message>, last: seq<Message>, result: seq<Message>, p: nat, q: nat)
    requires Hidden(before, p, q)
    requires forall m | m in result :: m in Dedup(before) || m in Fresh(last, Ids(before))
    ensures !(Dedup(Filter(before, Must)) <= result)
  {
    hide Fresh;
    var x, id := before[p], before[p].id;
    FirstIsKept(before, p);
    DedupUnique(before);
    DedupUnique(Filter(before, Must));
    MustIds(before, q);
    var m :| m in Dedup(Filter(before, Must)) && m.id == id;
    DedupMember(Filter(before, Must), m);
    FilterMember(before, Must, m);
    if Dedup(Filter(before, Must)) <= result {
      assert m in result;
      if m in Fresh(last, Ids(before)) {
        FreshIsNew(last, Ids(before), m);
        AllInIds(before);
      } else {
        SameIdSameMessage(Dedup(before), x, m);
      }
    }
  }

  lemma AgreementShowsNoneHidden(before: seq<Message>, last: seq<Message>, must: seq<Message>, news: seq<Message>)
    requires must == Filter(Passed(before, last), Must)
    requires must + (Reached(before, last) + Fresh(last, Ids(before))) == Dedup(Filter(before, Must)) + news
    ensures NoneHidden(before)
  {
    hide Must;
    hide Fresh;
    hide Dedup;
    hide Hidden;
    var result := Dedup(Filter(before, Must)) + news;
    PassedAndReached(before, last);
    forall m | m in result
      ensures m in Dedup(before) || m in Fresh(last, Ids(before))
    {
      if m in must {
        FilterMember(Passed(before, last), Must, m);
      }
    }
    forall p: nat, q: nat
      ensures !Hidden(before, p, q)
    {
      if Hidden(before, p, q) {
        AgreementShowsMust(before, last, result, p, q);
      }
    }
  }

  lemma PrefixCancels(a: seq<Message>, x: seq<Message>, y: seq<Message>, b: seq<Message>, z: seq<Message>)
    requires b == a + y
    ensures a + x == b + z <==> x == y + z
  {
    assert b + z == a + (y + z);
    if a + x == b + z {
      assert x == (a + x)[|a|..] == (a + (y + z))[|a|..] == y + z;
    }
  }

  lemma PartsAgreeIff(before: seq<Message>, last: seq<Message>)
    ensures var news := Fresh(last, Ids(Filter(before, Must)));
      Compacted(Dedup(before + last), |last|) == Dedup(Filter(before, Must)) + news
      <==> NoneHidden(before) && Reappear(Reached(before, last), Fresh(last, Ids(before)), news)
  {
    hide Compacted;
    hide Must;
    hide Dedup;
    hide Fresh;
    hide Reappear;
    hide NoneHidden;
    hide Reached;
    hide Passed;
    hide Filter;
    hide Ids;
    var must, reached := Filter(Passed(before, last), Must), Reached(before, last);
    var added, news := Fresh(last, Ids(before)), Fresh(last, Ids(Filter(before, Must)));
    TwiceParts(before, last);
    if must + (reached + added) == Dedup(Filter(before, Must)) + news {
      AgreementShowsNoneHidden(before, last, must, news);
    }
    if NoneHidden(before) {
      HiddenIff(before);
      PassedAndReached(before, last);
      FilterAppend(Passed(before, last), reached, Must);
      PrefixCancels(must, reached + added, Filter(reached, Must), Dedup(Filter(before, Must)), news);
      ReappearIff(reached, added, news);
    }
  }

  /**
   The law for every list, distinct identifiers or not. Compacting to k and then to j is compacting to the smaller
   of the two exactly when j is not smaller, or nothing is compacted at first, or the two windows agree on the
   repeated identifiers.
   */
  lemma CompactionsComposeIff(ms: seq<Message>, k: nat, j: nat)
    ensures Compacted(Compacted(ms, k), j) == Compacted(ms, Min(j, k))
       <==> || k <= j || |ms| <= k
            || WindowsAgree(ms[..|ms| - k], ms[|ms| - k..|ms| - j], ms[|ms| - j..])
  {
    hide Selected;
    hide Dedup;
    hide WindowsAgree;
    if k <= j {
      CompactedTwice(ms, k, j);
    } else if k < |ms| {
      var early, middle, last := ms[..|ms| - k], ms[|ms| - k..|ms| - j], ms[|ms| - j..];
      WindowsOf(early, middle, last);
      assert ms == early + (middle + last) == (early + middle) + last;
    }
  }

  lemma WindowsOf(early: seq<Message>, middle: seq<Message>, last: seq<Message>)
    requires early != []
    ensures Compacted(Compacted(early + (middle + last), |middle + last|), |last|)
         == Compacted((early + middle) + last, |last|)
       <==> WindowsAgree(early, middle, last)
  {
    hide Compacted;
    hide Dedup;
    hide NoneHidden;
    hide Reappear;
    hide Reached;
    hide Fresh;
    var before := Filter(early, Must) + middle;
    CompactedSplit(early, middle + last);
    assert Filter(early, Must) + (middle + last) == before + last;
    CompactedSplit(early + middle, last);
    OnceParts(early, middle, last);
    PartsAgreeIff(before, last);
  }

  // ----- The condition when all messages differ -----

  lemma {:induction false} FreshMember(ms: seq<Message>, seen: set<string>, m: Message)
    requires m in Fresh(ms, seen)
    ensures m in ms
  {
    if ms != [] {
      var front := ms[..|ms| - 1];
      if m in Fresh(front, seen) {
        FreshMember(front, seen, m);
      }
    }
  }

  lemma {:induction false} FreshCovers(ms: seq<Message>, seen: set<string>, id: string)
    requires id in Ids(ms) && id !in seen
    ensures id in Ids(Fresh(ms, seen))
  {
    var front, last := ms[..|ms| - 1], ms[|ms| - 1];
    assert ms == front + [last];
    IdsPush(front, last);
    if id in Ids(front) {
      FreshCovers(front, seen, id);
      IdsAppend(Fresh(front, seen), if last.id in seen + Ids(front) then [] else [last]);
    } else {
      InDisplay(Fresh(ms, seen), last);
    }
  }

  /** Of the identifiers that more messages were seen with, none occurs. */
  ghost predicate NoneOnlyIn(ms: seq<Message>, more: set<string>, fewer: set<string>) {
    forall m | m in ms :: m.id in more ==> m.id in fewer
  }

  lemma {:induction false} FreshSame(ms: seq<Message>, more: set<string>, fewer: set<string>)
    requires fewer <= more && NoneOnlyIn(ms, more, fewer)
    ensures Fresh(ms, more) == Fresh(ms, fewer)
  {
    if ms != [] {
      FreshSame(ms[..|ms| - 1], more, fewer);
    }
  }

  lemma FreshSameIff(ms: seq<Message>, more: set<string>, fewer: set<string>)
    requires fewer <= more
    ensures Fresh(ms, more) == Fresh(ms, fewer) <==> NoneOnlyIn(ms, more, fewer)
  {
    if NoneOnlyIn(ms, more, fewer) {
      FreshSame(ms, more, fewer);
    } else {
      var m :| m in ms && m.id in more && m.id !in fewer;
      FreshCovers(ms, fewer, m.id);
      var news :| news in Fresh(ms, fewer) && news.id == m.id;
      if news in Fresh(ms, more) {
        FreshIsNew(ms, more, news);
      }
    }
  }

  lemma ReachedMember(before: seq<Message>, last: seq<Message>, m: Message)
    requires m in Reached(before, last)
    ensures m in before
  {
    DedupMember(before, m);
  }

  /** If no message of the list occurs twice, nothing reached can come again. */
  lemma NothingReappears(before: seq<Message>, last: seq<Message>)
    requires forall m | m in last :: m !in before
    ensures var added, news := Fresh(last, Ids(before)), Fresh(last, Ids(Filter(before, Must)));
      Reappear(Reached(before, last), added, news)
      <==> (forall m | m in Reached(before, last) :: Must(m)) && news == added
  {
    hide Must;
    hide Reached;
    hide Fresh;
    var reached, added := Reached(before, last), Fresh(last, Ids(before));
    var news := Fresh(last, Ids(Filter(before, Must)));
    if Reappear(reached, added, news) {
      var ordinary :| reached == Filter(reached, Must) + ordinary && news == ordinary + added;
      if ordinary != [] {
        assert ordinary[0] in reached && ordinary[0] in news;
        ReachedMember(before, last, ordinary[0]);
        FreshMember(last, Ids(Filter(before, Must)), ordinary[0]);
      }
      assert reached == Filter(reached, Must) && news == added;
      forall m | m in reached
        ensures Must(m)
      {
        FilterMember(reached, Must, m);
      }
    }
    if (forall m | m in reached :: Must(m)) && news == added {
      FilterAll(reached, Must);
      assert reached == Filter(reached, Must) + [] && news == [] + added;
    }
  }

  /**
   When no message occurs twice, though identifiers may, the windows agree exactly if
   - no message that must stay repeats the identifier of an earlier ordinary one in the first window,
   - none of the last ones repeats an identifier that only ordinary messages before them have, and
   - the messages just before the last ones, one for each repeat among these, all must stay.
   */
  lemma DistinctWindowsAgreeIff(early: seq<Message>, middle: seq<Message>, last: seq<Message>)
    requires forall m | m in last :: m !in early && m !in middle
    ensures var before := Filter(early, Must) + middle;
      WindowsAgree(early, middle, last)
      <==> && NoneHidden(before)
           && (forall m | m in last :: m.id in Ids(before) ==> m.id in Ids(Filter(before, Must)))
           && (forall m | m in Reached(before, last) :: Must(m))
  {
    hide Must;
    hide Reached;
    hide Fresh;
    hide NoneHidden;
    hide Reappear;
    hide Ids;
    var before := Filter(early, Must) + middle;
    forall m | m in last
      ensures m !in before
    {
      FilterMember(early, Must, m);
    }
    NothingReappears(before, last);
    FilterIds(before);
    FreshSameIff(last, Ids(before), Ids(Filter(before, Must)));
  }

  // ----- A list on which the law fails -----

  /** Of three ordinary messages the last two share an identifier, but are not the same. */
  lemma SharedIdHidesLast(a: Message, b: Message, c: Message)
    requires !Must(a) && !Must(b) && b.id == c.id && b != c
    ensures Compacted(Compacted([a, b, c], 2), 1) == [b]
    ensures Compacted([a, b, c], 1) == [c] != [b]
  {
    hide Compacted;
    hide Dedup;
    FilterNone([a], Must);
    FilterNone([a, b], Must);
    CompactedSplit([a], [b, c]);
    CompactedSplit([a, b], [c]);
    CompactedSplit([], [b]);
    assert [a] + [b, c] == [a, b, c] == [a, b] + [c];
    RepeatDropped(b, c);
    assert [] + [b, c] == [b, c] && [] + [c] == [c] && [] + [b] == [b];
  }

  lemma RepeatDropped(b: Message, c: Message)
    requires b.id == c.id
    ensures Dedup([b, c]) == [b] && Dedup([c]) == [c]
  {
    DedupPush([], b);
    DedupPush([], c);
    DedupPush([b], c);
    assert [] + [b] == [b] && [] + [c] == [c] && [b] + [c] == [b, c];
    assert Dedup([]) == [];
    InDisplay([b], b);
  }
}
