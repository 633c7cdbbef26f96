/** A session: its messages, the counters kept beside them, forking and compaction. */
module Session {
  import opened Wrappers
  import opened Collections

  datatype Role = User | Assistant | System | Tool

  datatype Message = Message(id: string, role: Role, content: string, tokens: nat, pinned: bool)

  datatype Meta = Meta(id: string, parentId: Option<string>, totalTokens: nat, messageCount: nat, model: Option<string>)

  datatype Value = Value(meta: Meta, messages: seq<Message>)

  class Session {
    var meta: Meta
    var messages: seq<Message>

    function View(): Value
      reads this
    {
      Value(meta, messages)
    }

    constructor (id: string)
      ensures View() == Empty(id)
    {
      meta := Meta(id, None, 0, 0, None);
      messages := [];
    }

    /** `id` is the fresh identifier drawn for the message. */
    method Append(id: string, role: Role, content: string, tokens: nat)
      modifies this
      ensures View() == Appended(old(View()), Message(id, role, content, tokens, false))
    {
      meta := meta.(totalTokens := meta.totalTokens + tokens);
      meta := meta.(messageCount := meta.messageCount + 1);
      messages := messages + [Message(id, role, content, tokens, false)];
    }

    method Fork(newId: string) returns (fork: Session)
      ensures fresh(fork) && fork.View() == Forked(View(), newId)
      ensures fork.messages == messages && fork.meta.id == newId && fork.meta.parentId == Some(meta.id)
    {
      fork := new Session(newId);
      fork.meta := Meta(newId, Some(meta.id), meta.totalTokens, meta.messageCount, meta.model);
      fork.messages := messages;
    }

    method Compact(keepRecent: nat) returns (removed: nat)
      modifies this
      ensures messages == Compacted(old(messages), keepRecent)
      ensures removed == |old(messages)| - |messages|
      ensures meta == if |old(messages)| <= keepRecent then old(meta) else Recounted(old(meta), messages)
    {
      var originalCount := |messages|;
      CompactedLength(messages, keepRecent);
      if originalCount <= keepRecent {
        return 0;
      }
      var kept := [];
      for i := 0 to originalCount
        invariant kept == Selected(messages, keepRecent, i)
      {
        var message := messages[i];
        if message.pinned || message.role == System || i >= originalCount - keepRecent {
          kept := kept + [message];
        }
      }
      var distinct := Deduplicate(kept);
      removed := originalCount - |distinct|;
      var tokens := 0;
      for i := 0 to |distinct|
        invariant tokens == Tokens(distinct[..i])
      {
        tokens := tokens + distinct[i].tokens;
        assert distinct[..i + 1][..i] == distinct[..i];
      }
      assert distinct[..|distinct|] == distinct;
      meta := meta.(totalTokens := tokens, messageCount := |distinct|);
      messages := distinct;
    }

    /** Keeps the first message of every identifier. */
    static method Deduplicate(kept: seq<Message>) returns (distinct: seq<Message>)
      ensures distinct == Dedup(kept)
    {
      distinct := [];
      var seen: set<string> := {};
      for i := 0 to |kept|
        invariant distinct == Dedup(kept[..i])
        invariant seen == Ids(kept[..i])
      {
        assert kept[..i + 1][..i] == kept[..i];
        if kept[i].id !in seen {
          distinct := distinct + [kept[i]];
          seen := seen + {kept[i].id};
        }
      }
      assert kept[..|kept|] == kept;
    }
  }

  // ----- What the operations do to the value of a session -----

  function Empty(id: string): Value { Value(Meta(id, None, 0, 0, None), []) }

  function Appended(v: Value, m: Message): Value {
    Value(v.meta.(totalTokens := v.meta.totalTokens + m.tokens, messageCount := v.meta.messageCount + 1),
          v.messages + [m])
  }

  function Forked(v: Value, newId: string): Value {
    v.(meta := v.meta.(id := newId, parentId := Some(v.meta.id)))
  }

  function Tokens(ms: seq<Message>): nat {
    if ms == [] then 0 else Tokens(ms[..|ms| - 1]) + ms[|ms| - 1].tokens
  }

  function Recounted(meta: Meta, ms: seq<Message>): Meta {
    meta.(totalTokens := Tokens(ms), messageCount := |ms|)
  }

  predicate Must(m: Message) { m.pinned || m.role == System }

  predicate Kept(ms: seq<Message>, k: nat, i: nat)
    requires i < |ms|
  {
    Must(ms[i]) || i + k >= |ms|
  }

  /** The kept ones among the first `n` messages. */
  function Selected(ms: seq<Message>, k: nat, n: nat): seq<Message>
    requires n <= |ms|
  {
    if n == 0 then []
    else Selected(ms, k, n - 1) + if Kept(ms, k, n - 1) then [ms[n - 1]] else []
  }

  function Ids(ms: seq<Message>): set<string> {
    set m | m in ms :: m.id
  }

  function Dedup(ms: seq<Message>): seq<Message> {
    if ms == [] then []
    else
      var front, last := ms[..|ms| - 1], ms[|ms| - 1];
      Dedup(front) + if last.id in Ids(front) then [] else [last]
  }

  function Compacted(ms: seq<Message>, k: nat): seq<Message> {
    if |ms| <= k then ms else Dedup(Selected(ms, k, |ms|))
  }

  function CompactedValue(v: Value, k: nat): Value {
    Value(if |v.messages| <= k then v.meta else Recounted(v.meta, Compacted(v.messages, k)), Compacted(v.messages, k))
  }

  lemma {:induction false} SelectedLength(ms: seq<Message>, k: nat, n: nat)
    requires n <= |ms|
    ensures |Selected(ms, k, n)| <= n
  {
    if n > 0 {
      SelectedLength(ms, k, n - 1);
    }
  }

  lemma {:induction false} DedupLength(ms: seq<Message>)
    ensures |Dedup(ms)| <= |ms|
  {
    if ms != [] {
      DedupLength(ms[..|ms| - 1]);
    }
  }

  lemma CompactedLength(ms: seq<Message>, k: nat)
    ensures |Compacted(ms, k)| <= |ms|
  {
    SelectedLength(ms, k, |ms|);
    DedupLength(Selected(ms, k, |ms|));
  }

  // ----- Order -----

  /** `idx` places the elements of `a` in `b`, in the same order. */
  ghost predicate Embedding<T>(a: seq<T>, b: seq<T>, idx: seq<nat>) {
    && |idx| == |a|
    && (forall i | 0 <= i < |idx| :: idx[i] < |b| && b[idx[i]] == a[i])
    && (forall i, j | 0 <= i < j < |idx| :: idx[i] < idx[j])
  }

  ghost predicate Subsequence<T>(a: seq<T>, b: seq<T>) {
    exists idx: seq<nat> :: Embedding(a, b, idx)
  }

  lemma SubsequenceSelf<T>(a: seq<T>)
    ensures Subsequence(a, a)
  {
    assert Embedding(a, a, seq(|a|, i => i));
  }

  lemma SubsequenceTransitive<T>(a: seq<T>, b: seq<T>, c: seq<T>)
    requires Subsequence(a, b) && Subsequence(b, c)
    ensures Subsequence(a, c)
  {
    var ab: seq<nat> :| Embedding(a, b, ab);
    var bc: seq<nat> :| Embedding(b, c, bc);
    assert Embedding(a, c, seq(|ab|, i requires 0 <= i < |ab| => bc[ab[i]]));
  }

  /** One more element in the longer sequence, taken over or not. */
  lemma SubsequenceStep<T>(a: seq<T>, b: seq<T>, x: T)
    requires Subsequence(a, b)
    ensures Subsequence(a, b + [x]) && Subsequence(a + [x], b + [x])
  {
    var idx: seq<nat> :| Embedding(a, b, idx);
    assert Embedding(a, b + [x], idx);
    assert Embedding(a + [x], b + [x], idx + [|b|]);
  }

  lemma {:induction false} SelectedSubsequence(ms: seq<Message>, k: nat, n: nat)
    requires n <= |ms|
    ensures Subsequence(Selected(ms, k, n), ms[..n])
  {
    hide Subsequence;
    if n == 0 {
      SubsequenceSelf<Message>([]);
    } else {
      SelectedSubsequence(ms, k, n - 1);
      SubsequenceStep(Selected(ms, k, n - 1), ms[..n - 1], ms[n - 1]);
      assert ms[..n] == ms[..n - 1] + [ms[n - 1]];
      assert Selected(ms, k, n - 1) + [] == Selected(ms, k, n - 1);
    }
  }

  lemma {:induction false} DedupSubsequence(ms: seq<Message>)
    ensures Subsequence(Dedup(ms), ms)
  {
    hide Subsequence;
    if ms == [] {
      SubsequenceSelf(ms);
    } else {
      var front, last := ms[..|ms| - 1], ms[|ms| - 1];
      DedupSubsequence(front);
      SubsequenceStep(Dedup(front), front, last);
      assert ms == front + [last];
      assert Dedup(front) + [] == Dedup(front);
    }
  }

  /** Compaction only leaves messages out: what stays keeps its order, duplicate identifiers or not. */
  lemma CompactedSubsequence(ms: seq<Message>, k: nat)
    ensures Subsequence(Compacted(ms, k), ms)
  {
    hide Subsequence;
    SubsequenceSelf(ms);
    if |ms| > k {
      var selected := Selected(ms, k, |ms|);
      SelectedSubsequence(ms, k, |ms|);
      DedupSubsequence(selected);
      assert ms[..|ms|] == ms;
      SubsequenceTransitive(Dedup(selected), selected, ms);
    }
  }

  // ----- Distinct identifiers -----

  ghost predicate UniqueIds(ms: seq<Message>) {
    forall i, j | 0 <= i < j < |ms| :: ms[i].id != ms[j].id
  }

  lemma SubsequenceUnique(a: seq<Message>, b: seq<Message>)
    requires Subsequence(a, b) && UniqueIds(b)
    ensures UniqueIds(a)
  {
  }

  lemma {:induction false} DedupUnique(ms: seq<Message>)
    ensures UniqueIds(Dedup(ms)) && Ids(Dedup(ms)) == Ids(ms)
  {
    if ms != [] {
      var front, last := ms[..|ms| - 1], ms[|ms| - 1];
      DedupUnique(front);
      IdsPush(front, last);
      IdsPush(Dedup(front), last);
      assert ms == front + [last];
      forall i | 0 <= i < |Dedup(front)|
        ensures Dedup(front)[i].id in Ids(front)
      {
        assert Dedup(front)[i] in Dedup(front);
      }
    }
  }

  lemma IdsPush(ms: seq<Message>, m: Message)
    ensures Ids(ms + [m]) == Ids(ms) + {m.id}
  {
    assert forall x | x in ms :: x in ms + [m];
    assert m in ms + [m];
  }

  /** The second pass removes nothing exactly when all identifiers differ. */
  lemma {:induction false} DedupIdentityIff(ms: seq<Message>)
    ensures Dedup(ms) == ms <==> UniqueIds(ms)
  {
    DedupUnique(ms);
    if UniqueIds(ms) {
      DedupIdentity(ms);
    }
  }

  lemma {:induction false} DedupIdentity(ms: seq<Message>)
    requires UniqueIds(ms)
    ensures Dedup(ms) == ms
  {
    if ms != [] {
      var front, last := ms[..|ms| - 1], ms[|ms| - 1];
      assert ms == front + [last];
      DedupIdentity(front);
      assert forall m | m in front :: m.id != last.id;
    }
  }

  // ----- What compaction keeps -----

  /** The selection is: what must stay of the old messages, then all the recent ones. */
  lemma {:induction false} SelectedParts(ms: seq<Message>, k: nat, n: nat)
    requires k <= |ms| && n <= |ms|
    ensures n <= |ms| - k ==> Selected(ms, k, n) == Filter(ms[..n], Must)
    ensures n > |ms| - k ==> Selected(ms, k, n) == Filter(ms[..|ms| - k], Must) + ms[|ms| - k..n]
  {
    hide Must;
    var cut := |ms| - k;
    if n > 0 {
      SelectedParts(ms, k, n - 1);
      if n <= cut {
        LastOfSlice(ms, 0, n);
        FilterAppend(ms[..n - 1], [ms[n - 1]], Must);
        FilterSingle(ms[n - 1]);
      } else {
        LastOfSlice(ms, cut, n);
      }
    }
  }

  lemma LastOfSlice<T>(s: seq<T>, m: nat, n: nat)
    requires m < n <= |s|
    ensures s[m..n] == s[m..n - 1] + [s[n - 1]]
    ensures m == 0 ==> s[..n] == s[..n - 1] + [s[n - 1]]
  {
  }

  lemma FilterSingle(m: Message)
    ensures Filter([m], Must) == if Must(m) then [m] else []
  {
    assert [m][1..] == [];
  }

  /** With distinct identifiers compaction filters the old messages and keeps the last `k`. */
  lemma CompactedParts(ms: seq<Message>, k: nat)
    requires UniqueIds(ms) && k <= |ms|
    ensures Compacted(ms, k) == Filter(ms[..|ms| - k], Must) + ms[|ms| - k..]
  {
    if k == |ms| {
      assert ms[..0] == [] && ms[0..] == ms;
    } else {
      SelectedParts(ms, k, |ms|);
      SelectedSubsequence(ms, k, |ms|);
      assert ms[..|ms|] == ms;
      SubsequenceUnique(Selected(ms, k, |ms|), ms);
      DedupIdentity(Selected(ms, k, |ms|));
      FilterNone<Message>([], Must);
      if k == 0 {
        assert ms[|ms|..] == [];
      }
    }
  }

  /** With distinct identifiers a message stays exactly if it is pinned, a system message or among the last `k`. */
  lemma StaysIff(ms: seq<Message>, k: nat, i: nat)
    requires UniqueIds(ms) && i < |ms|
    ensures ms[i] in Compacted(ms, k) <==> ms[i].pinned || ms[i].role == System || i + k >= |ms|
  {
    hide UniqueIds;
    hide Filter;
    if k < |ms| {
      hide Compacted;
      var cut := |ms| - k;
      CompactedParts(ms, k);
      PartOf(ms, cut, i);
      FilterMember(ms[..cut], Must, ms[i]);
      InEither(Filter(ms[..cut], Must), ms[cut..], ms[i]);
    } else {
      assert Compacted(ms, k) == ms;
    }
  }

  lemma InEither<T>(a: seq<T>, b: seq<T>, x: T)
    ensures x in a + b <==> x in a || x in b
  {
  }

  /** With distinct identifiers every message is in one part of the list only. */
  lemma PartOf(ms: seq<Message>, cut: nat, i: nat)
    requires UniqueIds(ms) && i < |ms| && cut <= |ms|
    ensures ms[i] in ms[..cut] <==> i < cut
    ensures ms[i] in ms[cut..] <==> i >= cut
  {
    if i < cut {
      assert ms[..cut][i] == ms[i];
    } else {
      assert ms[cut..][i - cut] == ms[i];
    }
  }

  // ----- Runs over many sessions -----

  datatype Event =
    | Create(id: string)
    | Add(session: nat, message: Message)
    | Pin(session: nat, index: nat, pinned: bool)
    | Split(session: nat, newId: string)
    | Shrink(session: nat, keepRecent: nat)

  /** A message is added with an identifier its session does not hold; other events need what they name. */
  predicate Enabled(store: seq<Value>, e: Event) {
    match e
    case Create(_) => true
    case Add(s, m) => s < |store| && m.id !in Ids(store[s].messages)
    case Pin(s, i, _) => s < |store| && i < |store[s].messages|
    case Split(s, _) => s < |store|
    case Shrink(s, _) => s < |store|
  }

  function Pinned(v: Value, i: nat, pinned: bool): Value
    requires i < |v.messages|
  {
    v.(messages := v.messages[i := v.messages[i].(pinned := pinned)])
  }

  function Apply(store: seq<Value>, e: Event): seq<Value>
    requires Enabled(store, e)
  {
    match e
    case Create(id) => store + [Empty(id)]
    case Add(s, m) => store[s := Appended(store[s], m)]
    case Pin(s, i, pinned) => store[s := Pinned(store[s], i, pinned)]
    case Split(s, newId) => store + [Forked(store[s], newId)]
    case Shrink(s, k) => store[s := CompactedValue(store[s], k)]
  }

  ghost predicate ValidRun(events: seq<Event>)
    decreases |events|, 0
  {
    events == []
    || (ValidRun(events[..|events| - 1]) && Enabled(Store(events[..|events| - 1]), events[|events| - 1]))
  }

  /** The sessions after a run that starts with none. */
  ghost function Store(events: seq<Event>): seq<Value>
    requires ValidRun(events)
    decreases |events|, 1
  {
    if events == [] then [] else Apply(Store(events[..|events| - 1]), events[|events| - 1])
  }

  /** The counters agree with the messages, whose identifiers differ. */
  ghost predicate Consistent(v: Value) {
    && v.meta.totalTokens == Tokens(v.messages)
    && v.meta.messageCount == |v.messages|
    && UniqueIds(v.messages)
  }

  lemma {:induction false} TokensUpdate(ms: seq<Message>, i: nat, m: Message)
    requires i < |ms| && m.tokens == ms[i].tokens
    ensures Tokens(ms[i := m]) == Tokens(ms)
  {
    var last := |ms| - 1;
    if i < last {
      TokensUpdate(ms[..last], i, m);
      assert ms[i := m][..last] == ms[..last][i := m];
    } else {
      assert ms[i := m][..last] == ms[..last];
    }
  }

  lemma AppendedConsistent(v: Value, m: Message)
    requires Consistent(v) && m.id !in Ids(v.messages)
    ensures Consistent(Appended(v, m))
  {
    assert (v.messages + [m])[..|v.messages|] == v.messages;
    assert forall i | 0 <= i < |v.messages| :: v.messages[i] in v.messages;
  }

  lemma CompactedConsistent(v: Value, k: nat)
    requires Consistent(v)
    ensures Consistent(CompactedValue(v, k))
  {
    CompactedSubsequence(v.messages, k);
    SubsequenceUnique(Compacted(v.messages, k), v.messages);
  }

  lemma StepConsistent(store: seq<Value>, e: Event)
    requires Enabled(store, e) && forall s | 0 <= s < |store| :: Consistent(store[s])
    ensures forall s | 0 <= s < |Apply(store, e)| :: Consistent(Apply(store, e)[s])
  {
    match e
    case Create(id) =>
      assert Consistent(Empty(id));
    case Add(s, m) =>
      AppendedConsistent(store[s], m);
    case Pin(s, i, pinned) =>
      TokensUpdate(store[s].messages, i, store[s].messages[i].(pinned := pinned));
      assert Consistent(Pinned(store[s], i, pinned));
    case Split(s, newId) =>
      assert Consistent(Forked(store[s], newId));
    case Shrink(s, k) =>
      CompactedConsistent(store[s], k);
  }

  /** Over any run every session's counters are the sum of its messages' tokens and their number. */
  lemma {:induction false} CountersAgree(events: seq<Event>)
    requires ValidRun(events)
    ensures forall s | 0 <= s < |Store(events)| :: Consistent(Store(events)[s])
  {
    hide Consistent;
    if events != [] {
      CountersAgree(events[..|events| - 1]);
      StepConsistent(Store(events[..|events| - 1]), events[|events| - 1]);
    }
  }

  // ----- Independence -----

  /** What the events that touch session `s` make of its value, whatever happens to the others. */
  function Evolved(v: Value, events: seq<Event>, s: nat): Value {
    if events == [] then v
    else
      var sofar := Evolved(v, events[..|events| - 1], s);
      match events[|events| - 1]
      case Add(t, m) => if t == s then Appended(sofar, m) else sofar
      case Pin(t, i, pinned) => if t == s && i < |sofar.messages| then Pinned(sofar, i, pinned) else sofar
      case Shrink(t, k) => if t == s then CompactedValue(sofar, k) else sofar
      case _ => sofar
  }

  /** A session depends on its own events only: neither its forks nor its parent can change it. */
  lemma {:induction false} Independent(before: seq<Event>, events: seq<Event>, s: nat)
    requires ValidRun(before) && ValidRun(before + events) && s < |Store(before)|
    ensures s < |Store(before + events)|
    ensures Store(before + events)[s] == Evolved(Store(before)[s], events, s)
  {
    hide Appended;
    hide CompactedValue;
    if events == [] {
      assert before + events == before;
    } else {
      var front := events[..|events| - 1];
      assert (before + events)[..|before + events| - 1] == before + front;
      Independent(before, front, s);
      assert (before + events)[|before + events| - 1] == events[|events| - 1];
    }
  }
}
