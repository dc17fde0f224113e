/**
 What a backward walk over journal files reads: a file's readable entries, newest first, up to and including the first
 that is too old, and over all files no more than a bound.
 */
module JournalReads {
  import opened Options
  import opened JournalBlocks
  import opened JournalFormat
  import opened JournalFile

  const MAX_SCAN: nat := 200_000

  /** Files left out because their newest entry is older than what is asked for. */
  predicate Past(j: Journal, since: int) {
    j.tail != 0 && j.tail < since
  }

  /** The readable entries among these offsets. */
  function EntriesAt(j: GoodJournal, offs: seq<int>): seq<Entry> {
    if offs == [] then []
    else (match EntryAt(j, offs[0]) case None => [] case Some(e) => [e]) + EntriesAt(j, offs[1..])
  }

  /** Every readable entry of a file, newest first. */
  function Entries(j: GoodJournal): seq<Entry> {
    EntriesAt(j, NewestFirst(j))
  }

  /** Entries up to and including the first one too old, where a walk ends. */
  function UpTo(es: seq<Entry>, since: int): seq<Entry> {
    if es == [] then []
    else if es[0].at < since then [es[0]]
    else [es[0]] + UpTo(es[1..], since)
  }

  /** The first so many, or all. */
  function First<T>(s: seq<T>, n: nat): seq<T> {
    s[..Min(|s|, n)]
  }

  /** What is left after them. */
  function After<T>(s: seq<T>, n: nat): seq<T> {
    s[Min(|s|, n)..]
  }

  /** An entry and the file it is in, which its message is read from. */
  datatype Logged = Logged(j: GoodJournal, e: Entry)

  function In(j: GoodJournal, es: seq<Entry>): (r: seq<Logged>)
    ensures |r| == |es| && forall i | 0 <= i < |r| :: r[i] == Logged(j, es[i])
  {
    seq(|es|, i requires 0 <= i < |es| => Logged(j, es[i]))
  }

  /** Every readable entry of these files. */
  function Everything(js: seq<GoodJournal>): seq<Logged> {
    if js == [] then [] else In(js[0], Entries(js[0])) + Everything(js[1..])
  }

  /**
   What there is to read: of each file, newest first, the entries up to and with the first that is too old, and of a
   file whose newest is too old nothing.
   */
  function ToRead(js: seq<GoodJournal>, since: int): seq<Logged> {
    if js == [] then []
    else (if js[0].tail != 0 && js[0].tail < since then [] else In(js[0], UpTo(Entries(js[0]), since)))
         + ToRead(js[1..], since)
  }

  function HowMany(p: Logged -> bool, xs: seq<Logged>): nat {
    if xs == [] then 0 else (if p(xs[0]) then 1 else 0) + HowMany(p, xs[1..])
  }

  lemma HowManyCons(p: Logged -> bool, x: Logged, xs: seq<Logged>)
    ensures HowMany(p, [x] + xs) == (if p(x) then 1 else 0) + HowMany(p, xs) && HowMany(p, []) == 0
  {
    assert ([x] + xs)[1..] == xs;
  }

  predicate Falling(es: seq<Entry>) {
    forall i, k | 0 <= i < k < |es| :: es[i].at >= es[k].at
  }

  /** Entries are in time order, and none is newer than the header's newest. */
  predicate TimeOrdered(j: GoodJournal) {
    Falling(Entries(j)) && (j.tail != 0 ==> forall i | 0 <= i < |Entries(j)| :: Entries(j)[i].at <= j.tail)
  }

  lemma FallingRest(es: seq<Entry>)
    requires es != []
    ensures Falling(es) ==> Falling(es[1..]) && forall i | 0 <= i < |es[1..]| :: es[1..][i].at <= es[0].at
  {
    if Falling(es) {
      var rest := es[1..];
      forall i, k | 0 <= i < k < |rest| ensures rest[i].at >= rest[k].at {
        assert rest[i] == es[i + 1] && rest[k] == es[k + 1];
      }
    }
  }

  /** Hands over entries until the caller says stop or one is too old: how many were read, and what was gathered. */
  function Feed<T>(since: int, fn: (T, Entry) -> (T, bool), t: T, es: seq<Entry>): (nat, T) {
    if es == [] then (0, t)
    else if es[0].at < since then (1, t)
    else
      var (next, more) := fn(t, es[0]);
      if !more then (1, next)
      else
        var (n, last) := Feed(since, fn, next, es[1..]);
        (n + 1, last)
  }

  lemma EntriesStep(j: GoodJournal, offs: seq<int>)
    requires offs != []
    ensures EntryAt(j, offs[0]).None? ==> EntriesAt(j, offs) == EntriesAt(j, offs[1..])
    ensures EntryAt(j, offs[0]).Some? ==> EntriesAt(j, offs) == [EntryAt(j, offs[0]).value] + EntriesAt(j, offs[1..])
  {
    hide EntryAt;
  }

  lemma EntriesNone(j: GoodJournal)
    ensures EntriesAt(j, []) == []
  {
  }

  lemma FirstLength<T>(s: seq<T>, n: nat)
    ensures |First(s, n)| == Min(|s|, n)
  {
  }

  lemma FirstNone<T>(s: seq<T>, n: nat)
    ensures s == [] || n == 0 ==> First(s, n) == []
  {
  }

  lemma FirstCons<T>(x: T, s: seq<T>, n: nat)
    ensures First([x] + s, n) == if n == 0 then [] else [x] + First(s, n - 1)
  {
  }

  lemma FeedNone<T>(since: int, fn: (T, Entry) -> (T, bool), t: T)
    ensures Feed(since, fn, t, []) == (0, t)
  {
  }

  lemma FeedCons<T>(since: int, fn: (T, Entry) -> (T, bool), t: T, e: Entry, es: seq<Entry>)
    ensures Feed(since, fn, t, [e] + es) ==
              if e.at < since then (1, t)
              else if !fn(t, e).1 then (1, fn(t, e).0)
              else (1 + Feed(since, fn, fn(t, e).0, es).0, Feed(since, fn, fn(t, e).0, es).1)
  {
    assert ([e] + es)[1..] == es;
  }

  lemma VisitEntry<T>(j: GoodJournal, since: int, limit: nat, fn: (T, Entry) -> (T, bool), offs: seq<int>, n: nat, t: T)
    ensures var step := Stepper(j, since, limit, fn);
            (offs == [] || n >= limit ==> Visit(step, (n, t), offs) == (n, t)) &&
            (offs != [] && n < limit ==>
               Visit(step, (n, t), offs) ==
                 match EntryAt(j, offs[0])
                 case None => Visit(step, (n, t), offs[1..])
                 case Some(e) =>
                   if e.at < since then (n + 1, t)
                   else if fn(t, e).1 then Visit(step, (n + 1, fn(t, e).0), offs[1..])
                   else (n + 1, fn(t, e).0))
  {
    hide EntryAt;
  }

  /** The walk over a file's offsets with its limit is the plain feed of the first readable entries there. */
  lemma {:induction false} VisitFeeds<T>(j: GoodJournal, since: int, limit: nat, fn: (T, Entry) -> (T, bool),
                                         offs: seq<int>, n: nat, t: T)
    requires n <= limit
    ensures var fed := Feed(since, fn, t, First(EntriesAt(j, offs), limit - n));
            Visit(Stepper(j, since, limit, fn), (n, t), offs) == (n + fed.0, fed.1)
    decreases |offs|
  {
    hide EntryAt, Visit, Stepper, First, Feed, EntriesAt;
    VisitEntry(j, since, limit, fn, offs, n, t);
    FeedNone(since, fn, t);
    if offs == [] || n == limit {
      FirstNone(EntriesAt(j, offs), limit - n);
      EntriesNone(j);
      FirstNone<Entry>([], limit - n);
    } else {
      EntriesStep(j, offs);
      match EntryAt(j, offs[0])
      case None =>
        VisitFeeds(j, since, limit, fn, offs[1..], n, t);
      case Some(e) =>
        var rest := EntriesAt(j, offs[1..]);
        FirstCons(e, rest, limit - n);
        FeedCons(since, fn, t, e, First(rest, limit - n - 1));
        if e.at >= since && fn(t, e).1 {
          VisitFeeds(j, since, limit, fn, offs[1..], n + 1, fn(t, e).0);
        }
    }
  }

  /** A whole file's walk. */
  lemma WalkFeeds<T>(j: GoodJournal, since: int, limit: nat, fn: (T, Entry) -> (T, bool), t: T)
    ensures Walk(j, since, limit, fn, 0, t) == Feed(since, fn, t, First(Entries(j), limit))
  {
    hide Visit, Stepper, First, Feed, EntriesAt, NewestFirst;
    VisitFeeds(j, since, limit, fn, NewestFirst(j), 0, t);
  }

  lemma {:induction false} UpToFirst(es: seq<Entry>, since: int, n: nat)
    ensures First(UpTo(es, since), n) == UpTo(First(es, n), since)
  {
    if es != [] && n > 0 {
      UpToFirst(es[1..], since, n - 1);
      assert es == [es[0]] + es[1..];
      FirstCons(es[0], es[1..], n);
      FirstCons(es[0], UpTo(es[1..], since), n);
      FirstCons(es[0], [], n);
    }
  }

  /** The first of two runs together: the first of the one, and of the other as many as are still wanted. */
  lemma FirstOfTwo<T>(s: seq<T>, t: seq<T>, n: nat)
    ensures First(s + t, n) == First(s, n) + First(t, n - |First(s, n)|)
  {
  }
}
