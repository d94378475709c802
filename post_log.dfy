/** The spreadsheet log of new posts: a header row and one row per post
    (identifier, subreddit, title, short link), the set of post ids already
    logged in this run, and the identifier the next row will get. */
module PostLog {
  import opened Numerals
  import opened Labels

  /** A post as the stream delivers it. */
  datatype Post = Post(id: string, subreddit: string, title: string)

  const HEADER: seq<string> := ["ID", "Subreddit", "Title", "URL"]

  const LINK_BASE: string := "https://redd.it/"

  function Permalink(id: string): string
  {
    LINK_BASE + id
  }

  /** Different posts get different links. */
  lemma PermalinkInjective(a: string, b: string)
    requires Permalink(a) == Permalink(b)
    ensures a == b
  {
    assert a == Permalink(a)[|LINK_BASE|..];
    assert b == Permalink(b)[|LINK_BASE|..];
  }

  /** The row written for a post under a given identifier. */
  function RowOf(ident: string, p: Post): seq<string>
  {
    [ident, p.subreddit, p.title, Permalink(p.id)]
  }

  /** The identifier read back from a saved sheet: the text of the first cell
      of the last row, or nothing when there is no row or the row has no cell.
      A cell without text is read as the empty string, which next_id treats
      as nothing. */
  function LastLabel(rows: seq<seq<string>>): Option<string>
  {
    if rows == [] || rows[|rows| - 1] == [] then None else Some(rows[|rows| - 1][0])
  }

  /** A sheet holding only its header row cannot be resumed: its last first
      cell is "ID", which is no identifier. */
  lemma HeaderOnlyNotAccepted()
    ensures LastLabel([HEADER]) == Some("ID") && !Accepted(LastLabel([HEADER]))
  {
    assert SuffixPart("ID") == "ID" && !IsDigit("ID"[0]);
  }

  function Ids(feed: seq<Post>): set<string>
  {
    set p | p in feed :: p.id
  }

  /** The posts of a feed that get a row, in order, when the ids in seen are
      already logged: each id's first occurrence, unless it was seen. */
  function Fresh(feed: seq<Post>, seen: set<string>): seq<Post>
  {
    if feed == [] then []
    else
      var earlier := feed[..|feed| - 1];
      var p := feed[|feed| - 1];
      if p.id in seen || p.id in Ids(earlier) then Fresh(earlier, seen)
      else Fresh(earlier, seen) + [p]
  }

  /** Every post of the feed whose id was not seen before gets exactly one row:
      the fresh posts come from the feed, avoid seen, carry pairwise different
      ids, and cover every new id. */
  lemma {:induction false} FreshExactlyOnce(feed: seq<Post>, seen: set<string>)
    ensures forall p :: p in Fresh(feed, seen) ==> p in feed && p.id !in seen
    ensures forall j, k :: 0 <= j < k < |Fresh(feed, seen)| ==> Fresh(feed, seen)[j].id != Fresh(feed, seen)[k].id
    ensures Ids(Fresh(feed, seen)) == Ids(feed) - seen
  {
    if feed != [] {
      var earlier := feed[..|feed| - 1];
      var p := feed[|feed| - 1];
      FreshExactlyOnce(earlier, seen);
      assert feed == earlier + [p];
      assert Ids(feed) == Ids(earlier) + {p.id};
      var f := Fresh(earlier, seen);
      if !(p.id in seen || p.id in Ids(earlier)) {
        assert Ids(f + [p]) == Ids(f) + {p.id};
        forall j, k | 0 <= j < k < |f + [p]|
          ensures (f + [p])[j].id != (f + [p])[k].id
        {
          if k == |f| {
            assert (f + [p])[j] in f;
          }
        }
      }
    }
  }

  /** The rows written for posts when the first of them gets the n-th label
      handed out from the label first. */
  function LabelledRows(posts: seq<Post>, first: Label, n: nat): (rows: seq<seq<string>>)
    requires ValidLabel(first)
    ensures |rows| == |posts|
  {
    if posts == [] then []
    else
      var earlier := posts[..|posts| - 1];
      LabelledRows(earlier, first, n) + [RowOf(Format(Iterate(first, n + |earlier|)), posts[|posts| - 1])]
  }

  /** Taking one more post of the feed: its id joins the ids, and it is fresh
      exactly when its id is neither seen nor among the ids before it. */
  lemma FeedStep(feed: seq<Post>, i: nat, seen: set<string>)
    requires i < |feed|
    ensures Ids(feed[..i + 1]) == Ids(feed[..i]) + {feed[i].id}
    ensures Fresh(feed[..i + 1], seen)
            == if feed[i].id in seen + Ids(feed[..i]) then Fresh(feed[..i], seen) else Fresh(feed[..i], seen) + [feed[i]]
  {
    assert feed[..i + 1] == feed[..i] + [feed[i]];
    assert feed[..i + 1][..i] == feed[..i];
  }

  /** One more post gets the next label after those of the posts before it. */
  lemma LabelledRowsStep(posts: seq<Post>, p: Post, first: Label, n: nat, m: nat)
    requires ValidLabel(first) && m == n + |posts|
    ensures LabelledRows(posts + [p], first, n)
            == LabelledRows(posts, first, n) + [RowOf(Format(Iterate(first, m)), p)]
  {
    assert (posts + [p])[..|posts|] == posts;
  }

  // Proved without a body; stated on its own so that the proof of RunStep
  // does not have to find the regrouping among long row sequences.
  lemma AppendAssociative<T>(a: seq<T>, b: seq<T>, c: seq<T>)
    ensures (a + b) + c == a + (b + c)
  {
  }

  /** The stream loop's step: after the post at position i of the feed is
      handled (when its id was not seen, the id is marked seen and its row is
      appended under ident, the m-th label; otherwise nothing changes), the
      seen ids and the rows of this run are those of the first i + 1 posts. */
  lemma RunStep(feed: seq<Post>, i: nat, seen0: set<string>, rows0: seq<seq<string>>, first: Label, n: nat,
                seen: set<string>, rows: seq<seq<string>>, m: nat, ident: string,
                seen': set<string>, rows': seq<seq<string>>, m': nat)
    requires ValidLabel(first) && i < |feed|
    requires seen == seen0 + Ids(feed[..i])
    requires m == n + |Fresh(feed[..i], seen0)| && ident == Format(Iterate(first, m))
    requires rows == rows0 + LabelledRows(Fresh(feed[..i], seen0), first, n)
    requires feed[i].id in seen ==> seen' == seen && rows' == rows && m' == m
    requires feed[i].id !in seen ==> seen' == seen + {feed[i].id} && rows' == rows + [RowOf(ident, feed[i])] && m' == m + 1
    ensures seen' == seen0 + Ids(feed[..i + 1])
    ensures m' == n + |Fresh(feed[..i + 1], seen0)|
    ensures rows' == rows0 + LabelledRows(Fresh(feed[..i + 1], seen0), first, n)
  {
    FeedStep(feed, i, seen0);
    var done := Fresh(feed[..i], seen0);
    LabelledRowsStep(done, feed[i], first, n, m);
    AppendAssociative(rows0, LabelledRows(done, first, n), [RowOf(ident, feed[i])]);
  }

  /** A row written in this run: it carries the given identifier and the post's link. */
  predicate RowFor(row: seq<string>, ident: string, id: string)
  {
    |row| == 4 && row[0] == ident && row[3] == Permalink(id)
  }

  /** The state of a log that has written one row per id of posted since it
      started with base rows: the k-th of them carries the k-th label handed
      out from first and the k-th post's link, the ids are pairwise different
      and exactly the seen ones, and pending is the label after the last row. */
  ghost predicate Consistent(rows: seq<seq<string>>, seen: set<string>, pending: string,
                             base: nat, first: Label, posted: seq<string>)
  {
    && ValidLabel(first)
    && base + |posted| == |rows|
    && pending == Format(Iterate(first, |posted|))
    && (forall k {:trigger posted[k]} :: 0 <= k < |posted| ==> RowFor(rows[base + k], Format(Iterate(first, k)), posted[k]))
    && (forall j, k :: 0 <= j < k < |posted| ==> posted[j] != posted[k])
    && (forall id :: id in seen <==> id in posted)
  }

  /** Logging a post whose id was not seen keeps the state consistent; the
      pending identifier is one next_id accepts. */
  lemma ConsistentAfterPost(rows: seq<seq<string>>, seen: set<string>, pending: string,
                            base: nat, first: Label, posted: seq<string>, p: Post)
    requires Consistent(rows, seen, pending, base, first, posted) && p.id !in seen
    ensures Accepted(Some(pending))
    ensures Consistent(rows + [RowOf(pending, p)], seen + {p.id}, NextLabel(Some(pending)),
                       base, first, posted + [p.id])
  {
    var n := |posted|;
    NextLabelOfFormat(Iterate(first, n));
    assert Iterate(first, n + 1) == Successor(Iterate(first, n));
    var rows', posted' := rows + [RowOf(pending, p)], posted + [p.id];
    forall k | 0 <= k < n + 1
      ensures RowFor(rows'[base + k], Format(Iterate(first, k)), posted'[k])
    {
      if k < n {
        assert rows'[base + k] == rows[base + k] && posted'[k] == posted[k];
      }
    }
  }

  class Log {
    var rows: seq<seq<string>>
    var seen: set<string>
    var pending: string
    /** The rows already in the sheet at startup. */
    ghost var base: nat
    /** The label of the first row of this run. */
    ghost var first: Label
    /** The ids of the posts logged in this run, in order. */
    ghost var posted: seq<string>

    ghost predicate Valid()
      reads this
    {
      Consistent(rows, seen, pending, base, first, posted)
    }

    /** Startup: with no saved sheet, a new one holding only the header row;
        with a saved sheet, its rows, resuming after the identifier in its last
        row. In both cases the next identifier is next_id of what was read. */
    constructor Open(saved: Option<seq<seq<string>>>)
      requires saved.Some? ==> Accepted(LastLabel(saved.value))
      ensures Valid() && seen == {} && base == |rows| && posted == []
      ensures first == NextParts(if saved.Some? then LastLabel(saved.value) else None)
      ensures saved.None? ==> rows == [HEADER] && pending == "A001" && first == FIRST
      ensures saved.Some? ==> rows == saved.value && pending == NextLabel(LastLabel(saved.value))
    {
      var sheet: seq<seq<string>>;
      var lastId: Option<string>;
      if saved.Some? {
        sheet := saved.value;
        lastId := LastLabel(saved.value);
      } else {
        sheet := [HEADER];
        lastId := None;
      }
      var next := NextId(lastId);
      rows := sheet;
      pending := next;
      seen := {};
      base := |sheet|;
      first := NextParts(lastId);
      posted := [];
      new;
      HeaderOnlyNotAccepted();
      FirstLabel();
    }

    /** One post from the stream: skipped when its id was seen; otherwise its
        id is marked seen, a row with the pending identifier is appended, and
        the pending identifier moves on. */
    method OnPost(p: Post)
      requires Valid()
      modifies this
      ensures Valid() && base == old(base) && first == old(first)
      ensures p.id in old(seen) ==> rows == old(rows) && seen == old(seen) && pending == old(pending) && posted == old(posted)
      ensures p.id !in old(seen) ==>
                && seen == old(seen) + {p.id}
                && rows == old(rows) + [RowOf(old(pending), p)]
                && pending == NextLabel(Some(old(pending)))
                && posted == old(posted) + [p.id]
    {
      if p.id in seen {
        return;
      }
      ConsistentAfterPost(rows, seen, pending, base, first, posted, p);
      var next := NextId(Some(pending));
      seen, rows, pending, posted := seen + {p.id}, rows + [RowOf(pending, p)], next, posted + [p.id];
    }

    /** The stream loop over a finite stretch of the feed. */
    method Run(feed: seq<Post>)
      requires Valid()
      modifies this
      ensures Valid() && base == old(base) && first == old(first)
      ensures seen == old(seen) + Ids(feed)
      ensures rows == old(rows) + LabelledRows(Fresh(feed, old(seen)), first, old(|posted|))
      ensures |posted| == old(|posted|) + |Fresh(feed, old(seen))|
    {
      var i := 0;
      while i < |feed|
        invariant 0 <= i <= |feed|
        invariant Valid() && base == old(base) && first == old(first)
        invariant seen == old(seen) + Ids(feed[..i])
        invariant |posted| == old(|posted|) + |Fresh(feed[..i], old(seen))|
        invariant rows == old(rows) + LabelledRows(Fresh(feed[..i], old(seen)), first, old(|posted|))
      {
        var p := feed[i];
        ghost var seenBefore, rowsBefore, count, ident := seen, rows, |posted|, pending;
        OnPost(p);
        RunStep(feed, i, old(seen), old(rows), first, old(|posted|),
                seenBefore, rowsBefore, count, ident, seen, rows, |posted|);
        i := i + 1;
      }
      assert feed[..i] == feed;
    }
  }

  /** Once a row has been written, resuming from the rows as they stand
      (reading the first cell of the last row and calling next_id on it)
      gives the identifier the running log would hand out next. */
  lemma ResumeAgrees(log: Log)
    requires log.Valid() && |log.posted| > 0
    ensures Accepted(LastLabel(log.rows))
    ensures NextLabel(LastLabel(log.rows)) == log.pending
  {
    var n := |log.posted| - 1;
    var last := log.rows[|log.rows| - 1];
    assert RowFor(log.rows[log.base + n], Format(Iterate(log.first, n)), log.posted[n]);
    assert LastLabel(log.rows) == Some(Format(Iterate(log.first, n)));
    NextLabelOfFormat(Iterate(log.first, n));
  }

  /** Every id marked seen has exactly one row among the rows of this run:
      some row of this run carries its link, and no two rows of this run
      carry the same link. */
  lemma SeenExactlyOnce(log: Log)
    requires log.Valid()
    ensures forall id :: id in log.seen <==>
              exists k :: log.base <= k < |log.rows| && |log.rows[k]| == 4 && log.rows[k][3] == Permalink(id)
    ensures forall j, k :: log.base <= j < k < |log.rows| ==> LinksApart(log.rows[j], log.rows[k])
  {
    forall j, k | log.base <= j < k < |log.rows| {
      LinksDiffer(log, j, k);
    }
    forall id {
      SeenHasRow(log, id);
    }
  }

  /** An id is seen exactly when some row of this run carries its link. */
  lemma SeenHasRow(log: Log, id: string)
    requires log.Valid()
    ensures id in log.seen <==>
            exists k :: log.base <= k < |log.rows| && |log.rows[k]| == 4 && log.rows[k][3] == Permalink(id)
  {
    if id in log.seen {
      var k :| 0 <= k < |log.posted| && log.posted[k] == id;
      assert RowFor(log.rows[log.base + k], Format(Iterate(log.first, k)), log.posted[k]);
    }
    if exists k :: log.base <= k < |log.rows| && |log.rows[k]| == 4 && log.rows[k][3] == Permalink(id) {
      var k :| log.base <= k < |log.rows| && |log.rows[k]| == 4 && log.rows[k][3] == Permalink(id);
      assert RowFor(log.rows[k], Format(Iterate(log.first, k - log.base)), log.posted[k - log.base]);
      PermalinkInjective(id, log.posted[k - log.base]);
    }
  }

  /** Two rows, each with four cells, whose links differ. */
  predicate LinksApart(a: seq<string>, b: seq<string>)
  {
    |a| == 4 && |b| == 4 && a[3] != b[3]
  }

  /** Two rows of this run carry different links. */
  lemma LinksDiffer(log: Log, j: nat, k: nat)
    requires log.Valid() && log.base <= j < k < |log.rows|
    ensures LinksApart(log.rows[j], log.rows[k])
  {
    var a, b := log.posted[j - log.base], log.posted[k - log.base];
    assert RowFor(log.rows[j], Format(Iterate(log.first, j - log.base)), a);
    assert RowFor(log.rows[k], Format(Iterate(log.first, k - log.base)), b);
    assert a != b;
    if log.rows[j][3] == log.rows[k][3] {
      PermalinkInjective(a, b);
    }
  }

  /** The k-th row of this run carries the k-th label handed out. */
  lemma RowLabel(log: Log, k: nat)
    requires log.Valid() && log.base <= k < |log.rows|
    ensures |log.rows[k]| == 4 && log.rows[k][0] == Format(Iterate(log.first, k - log.base))
  {
    assert RowFor(log.rows[k], Format(Iterate(log.first, k - log.base)), log.posted[k - log.base]);
  }

  /** The identifiers of the rows written in this run are well formed and
      all of them come before the pending one, which is well formed too. */
  lemma RowsBeforePending(log: Log)
    requires log.Valid()
    ensures WellFormed(log.pending)
    ensures forall k :: log.base <= k < |log.rows| ==>
              |log.rows[k]| == 4 && IdentsInOrder(log.rows[k][0], log.pending)
  {
    FormatWellFormed(Iterate(log.first, |log.posted|));
    forall k | log.base <= k < |log.rows|
      ensures |log.rows[k]| == 4 && IdentsInOrder(log.rows[k][0], log.pending)
    {
      RowLabel(log, k);
      FormattedIncrease(log.first, k - log.base, |log.posted|, log.rows[k][0], log.pending);
    }
  }

  /** Two rows whose identifiers are well formed, the first one's coming first. */
  predicate InOrder(a: seq<string>, b: seq<string>)
  {
    |a| == 4 && |b| == 4 && IdentsInOrder(a[0], b[0])
  }

  /** Of two rows of this run, the earlier carries the earlier identifier. */
  lemma RowsOrdered(log: Log, j: nat, k: nat)
    requires log.Valid() && log.base <= j < k < |log.rows|
    ensures InOrder(log.rows[j], log.rows[k])
  {
    RowLabel(log, j);
    RowLabel(log, k);
    FormattedIncrease(log.first, j - log.base, k - log.base, log.rows[j][0], log.rows[k][0]);
  }

  /** The identifiers of the rows written in this run strictly increase. */
  lemma LabelsIncrease(log: Log)
    requires log.Valid()
    ensures forall j, k :: log.base <= j < k < |log.rows| ==> InOrder(log.rows[j], log.rows[k])
  {
    forall j, k | log.base <= j < k < |log.rows| {
      RowsOrdered(log, j, k);
    }
  }

  /** Across a restart the order goes on: when the log resumed after the
      well-formed identifier s (the last one of the saved sheet), s comes
      before every identifier of this run and before the pending one. */
  lemma ResumedAfter(log: Log, s: string)
    requires log.Valid() && WellFormed(s) && log.first == NextParts(Some(s))
    ensures IdentsInOrder(s, log.pending)
    ensures forall k :: log.base <= k < |log.rows| ==> |log.rows[k]| == 4 && IdentsInOrder(s, log.rows[k][0])
  {
    NextLabelFollows(s);
    var start := Format(log.first);
    if |log.posted| > 0 {
      FormattedIncrease(log.first, 0, |log.posted|, start, log.pending);
      IdentsInOrderTransitive(s, start, log.pending);
    }
    forall k | log.base <= k < |log.rows|
      ensures |log.rows[k]| == 4 && IdentsInOrder(s, log.rows[k][0])
    {
      RowLabel(log, k);
      if k > log.base {
        FormattedIncrease(log.first, 0, k - log.base, start, log.rows[k][0]);
        IdentsInOrderTransitive(s, start, log.rows[k][0]);
      }
    }
  }
}
