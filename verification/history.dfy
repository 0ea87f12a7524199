/** The activity feed (src/pages/HistoryPage.jsx): the newest 100 rows of
    `history`, newest first. */
module History {
  import opened Sorting
  import opened Db
  import opened Js

  /** `.limit(100)`. */
  const FeedLimit: nat := 100

  /** `.order('created_at', { ascending: false })`. */
  function NewerFirst(a: Entry, b: Entry): bool {
    a.createdAt >= b.createdAt
  }

  /** The feed query: at most 100 log rows, unmodified, newest first, and no
      row left out is newer than a row shown. */
  function Feed(log: seq<Entry>): (feed: seq<Entry>)
    ensures |feed| == if |log| < FeedLimit then |log| else FeedLimit
    ensures forall i, j :: 0 <= i < j < |feed| ==> feed[i].createdAt >= feed[j].createdAt
    ensures multiset(feed) <= multiset(log)
    ensures forall x, y :: x in multiset(log) - multiset(feed) && y in feed ==> x.createdAt <= y.createdAt
  {
    var sorted := Sort(log, NewerFirst);
    var k := if |log| < FeedLimit then |log| else FeedLimit;
    PrefixNewestFirst(sorted, k);
    TruncationFacts(log, sorted, k);
    sorted[..k]
  }

  /** Cutting a newest-first permutation of the log after `k` rows leaves out
      exactly the rows after the cut, none newer than a row kept. */
  lemma TruncationFacts(log: seq<Entry>, sorted: seq<Entry>, k: nat)
    requires multiset(sorted) == multiset(log) && SortedBy(sorted, NewerFirst) && k <= |sorted|
    ensures multiset(sorted[..k]) <= multiset(log)
    ensures forall x, y :: x in multiset(log) - multiset(sorted[..k]) && y in sorted[..k] ==> x.createdAt <= y.createdAt
  {
    assert sorted == sorted[..k] + sorted[k..];
    assert multiset(log) - multiset(sorted[..k]) == multiset(sorted[k..]);
    SortedPrefixPrecedesRest(sorted, NewerFirst, k);
  }

  /** The first `k` rows of a newest-first sequence are newest first. */
  lemma PrefixNewestFirst(sorted: seq<Entry>, k: nat)
    requires SortedBy(sorted, NewerFirst) && k <= |sorted|
    ensures |sorted[..k]| == k
    ensures forall i, j :: 0 <= i < j < |sorted[..k]| ==> sorted[..k][i].createdAt >= sorted[..k][j].createdAt
  {
    forall i, j | 0 <= i < j < |sorted[..k]| ensures sorted[..k][i].createdAt >= sorted[..k][j].createdAt {
      assert sorted[..k][i] == sorted[i] && sorted[..k][j] == sorted[j];
      assert NewerFirst(sorted[i], sorted[j]);
    }
  }

  /** A row newer than every earlier row is the first row of the feed. */
  lemma {:induction false} NewestEntryHeadsFeed(log: seq<Entry>, e: Entry)
    requires forall x :: x in log ==> x.createdAt < e.createdAt
    ensures |Feed(log + [e])| > 0 && Feed(log + [e])[0] == e
  {
    var all := log + [e];
    var feed := Feed(all);
    assert feed[0] in multiset(all);
  }

  /** On a valid store the row a transition logs is shown first in the feed. */
  lemma LoggedEntryHeadsFeed(st: Store, id: Id, memberId: Option<Id>, memberName: string, date: Date,
                             action: Action, reason: Option<string>)
    requires Valid(st) && References(st, memberId)
    ensures var log := InsertEntry(st, id, memberId, memberName, date, action, reason).history;
            |Feed(log)| > 0 && Feed(log)[0] == Entry(id, memberId, memberName, date, action, reason, st.clock)
  {
    NewestEntryHeadsFeed(st.history, Entry(id, memberId, memberName, date, action, reason, st.clock));
  }
}
