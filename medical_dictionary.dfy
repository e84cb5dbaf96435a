/**
  The bilingual term store: a mapping from a normalised English key to a
  record holding the current Vietnamese translation, its category, source and
  confidence, two timestamps, and an append-only list of versions. Keys keep
  the order in which they were first inserted, as a Python dict does; that
  order is the order of the CSV export and the tie order of the similarity
  ranking.

  Persistence is not modelled (every save is a no-op here), and the clock is
  an input: each reading of `datetime.now()` is a parameter, and the readings
  handed to the store never go backwards.
 */
module Dictionary {
  import opened Text
  import opened Ranking
  import Similarity

  /** One entry of a record's history. */
  datatype Version = Version(vietnamese: string, confidence: real, date: nat, source: string)

  /** A stored term: the current fields and the history behind them. */
  datatype TermRecord = TermRecord(
    vietnamese: string,
    category: string,
    source: string,
    confidence: real,
    addedDate: nat,
    lastUpdated: nat,
    versions: seq<Version>)

  /** The three clock readings `add_term` takes, in the order it takes them:
      for `added_date`, for `last_updated`, and for the first version. */
  datatype Stamps = Stamps(added: nat, updated: nat, version: nat)

  /** The abstract value of a store: its keys in insertion order and the
      records they map to. */
  datatype Store = Store(keys: seq<string>, terms: map<string, TermRecord>)

  /** The readings come no earlier than `clock` and in call order. */
  predicate StampsFrom(clock: nat, at: Stamps) {
    clock <= at.added <= at.updated <= at.version
  }

  /** One set of readings per row, each no earlier than the one before. */
  predicate Chain(clock: nat, stamps: seq<Stamps>)
    decreases |stamps|
  {
    stamps == [] || (StampsFrom(clock, stamps[0]) && Chain(stamps[0].version, stamps[1..]))
  }

  /** The current fields equal those of the last version. */
  predicate InSync(r: TermRecord) {
    && |r.versions| >= 1
    && var last := r.versions[|r.versions| - 1];
    && r.vietnamese == last.vietnamese
    && r.confidence == last.confidence
    && r.source == last.source
  }

  /** The timestamps of a record are ordered and none is later than `clock`. */
  predicate Timely(r: TermRecord, clock: nat) {
    && |r.versions| >= 1
    && r.addedDate <= r.lastUpdated <= clock
    && r.addedDate <= r.versions[0].date
    && (forall p, q :: 0 <= p < q < |r.versions| ==> r.versions[p].date <= r.versions[q].date)
    && r.versions[|r.versions| - 1].date <= clock
  }

  /** The invariant of every stored record. */
  predicate RecordOk(r: TermRecord, clock: nat) {
    InSync(r) && Stripped(r.vietnamese) && Timely(r, clock)
  }

  /** No key occurs twice. */
  predicate NoDup(keys: seq<string>) {
    forall p, q :: 0 <= p < q < |keys| ==> keys[p] != keys[q]
  }

  /** The store invariant: the key order lists every key exactly once, every
      key is normalised, and every record keeps its own invariant. */
  ghost predicate StoreOk(st: Store, clock: nat) {
    && NoDup(st.keys)
    && (forall k :: k in st.terms <==> k in st.keys)
    && (forall k | k in st.terms :: IsKey(k) && RecordOk(st.terms[k], clock))
  }

  /** The record `add_term` builds: one version, carrying the stripped
      translation, the confidence and the source. */
  function NewRecord(vietnamese: string, category: string, source: string, confidence: real, at: Stamps): (r: TermRecord)
    ensures |r.versions| == 1
    ensures r.vietnamese == Strip(vietnamese) == r.versions[0].vietnamese
    ensures r.confidence == confidence == r.versions[0].confidence
    ensures r.source == source == r.versions[0].source
    ensures r.category == category
  {
    var v := Strip(vietnamese);
    TermRecord(v, category, source, confidence, at.added, at.updated, [Version(v, confidence, at.version, source)])
  }

  /** Assigning a key of a Python dict: a new key goes to the end, an existing
      key keeps its place. */
  function AddKey(keys: seq<string>, key: string): seq<string> {
    if key in keys then keys else keys + [key]
  }

  /** The store after `add_term` of `key` with record `r`. */
  function Upsert(st: Store, key: string, r: TermRecord): (st': Store)
    ensures key in st'.terms && st'.terms[key] == r
    ensures forall k :: k != key ==> (k in st'.terms <==> k in st.terms)
    ensures forall k :: k in st.terms && k != key ==> st'.terms[k] == st.terms[k]
    ensures key in st.keys ==> st'.keys == st.keys
    ensures key !in st.keys ==> st'.keys == st.keys + [key]
  {
    Store(AddKey(st.keys, key), st.terms[key := r])
  }

  /** The record after `update_term`: one more version, and the current
      translation, confidence, source and `last_updated` overwritten. */
  function WithVersion(r: TermRecord, vietnamese: string, source: string, confidence: real,
                       versionAt: nat, updatedAt: nat): (r': TermRecord)
    ensures |r'.versions| == |r.versions| + 1 && r'.versions[..|r.versions|] == r.versions
    ensures r'.versions[|r.versions|] == Version(Strip(vietnamese), confidence, versionAt, source)
    ensures r'.vietnamese == Strip(vietnamese) && r'.confidence == confidence && r'.source == source
    ensures r'.lastUpdated == updatedAt
    ensures r'.category == r.category && r'.addedDate == r.addedDate
  {
    var v := Strip(vietnamese);
    r.(versions := r.versions + [Version(v, confidence, versionAt, source)],
       vietnamese := v, confidence := confidence, lastUpdated := updatedAt, source := source)
  }

  /** `get_translation` on the records `terms`. */
  function Lookup(terms: map<string, TermRecord>, english: string): (r: Option<TermRecord>)
  {
    var key := Normalize(english);
    if key in terms then Some(terms[key]) else None
  }

  /** Looking up is insensitive to normalising the term first, and a stored
      key finds its own record. */
  lemma LookupNormalized(st: Store, clock: nat, english: string)
    requires StoreOk(st, clock)
    ensures Lookup(st.terms, Normalize(english)) == Lookup(st.terms, english)
    ensures forall k :: k in st.keys ==> Lookup(st.terms, k) == Some(st.terms[k])
  {
    NormalizeIdempotent(english);
    forall k | k in st.keys
      ensures Lookup(st.terms, k) == Some(st.terms[k])
    {
      KeyIsNormal(k);
    }
  }

  /** In a valid store, looking a term up finds a record exactly when its
      normalised form is a key, and the record found keeps the record
      invariant. */
  lemma LookupOk(st: Store, clock: nat, english: string)
    requires StoreOk(st, clock)
    ensures var r := Lookup(st.terms, english);
            && (r.Some? <==> Normalize(english) in st.keys)
            && (r.Some? ==> RecordOk(r.value, clock) && |r.value.versions| >= 1)
  {
  }

  /** Similarity threshold: only keys scoring strictly above it are kept. */
  const Threshold: real := 0.6

  /** The `matches` list `get_similar_terms` builds: every key of `ks`, in
      order, whose ratio against `query` is above the threshold. */
  function Candidates(query: string, ks: seq<string>): seq<Scored<string>>
  {
    if ks == [] then []
    else
      var k := ks[|ks| - 1];
      var ratio := Similarity.Ratio(query, k);
      Candidates(query, ks[..|ks| - 1]) + (if ratio > Threshold then [(k, ratio)] else [])
  }

  /** The candidates are exactly the keys of `ks` scoring above the
      threshold, each paired with its ratio against `query`. */
  lemma {:induction false} CandidatesFacts(query: string, ks: seq<string>)
    ensures var c := Candidates(query, ks);
            && (forall p :: 0 <= p < |c| ==> c[p].0 in ks && c[p].1 == Similarity.Ratio(query, c[p].0))
            && (forall p :: 0 <= p < |c| ==> Threshold < c[p].1 <= 1.0)
            && (forall k :: k in ks && Similarity.Ratio(query, k) > Threshold ==> (k, Similarity.Ratio(query, k)) in c)
  {
    if ks != [] {
      var front := ks[..|ks| - 1];
      CandidatesFacts(query, front);
      assert ks == front + [ks[|ks| - 1]];
    }
  }

  /** Every candidate is a key of `ks` with its own ratio, above the
      threshold and at most 1.0. */
  lemma CandidatesSound(query: string, ks: seq<string>)
    ensures forall x :: x in Candidates(query, ks) ==>
              && x.0 in ks && x.1 == Similarity.Ratio(query, x.0)
              && Threshold < x.1 <= 1.0
  {
    var c := Candidates(query, ks);
    CandidatesFacts(query, ks);
    forall x | x in c
      ensures x.0 in ks && x.1 == Similarity.Ratio(query, x.0) && Threshold < x.1 <= 1.0
    {
      var p :| 0 <= p < |c| && c[p] == x;
    }
  }

  /** Scanning one more key appends it when it scores above the threshold. */
  lemma CandidatesStep(query: string, ks: seq<string>, i: nat)
    requires i < |ks|
    ensures var ratio := Similarity.Ratio(query, ks[i]);
            Candidates(query, ks[..i + 1]) == Candidates(query, ks[..i]) + (if ratio > Threshold then [(ks[i], ratio)] else [])
  {
    assert ks[..i + 1][..i] == ks[..i];
  }

  /** `get_similar_terms(term, n)` on the keys `ks`. */
  function Ranked(ks: seq<string>, term: string, n: int): seq<Scored<string>> {
    Take(SortDesc(Candidates(Normalize(term), ks)), n)
  }

  /** `get_similar_terms` returns at most `n` pairs, each a stored key with
      its ratio against the normalised term, strictly above the threshold. */
  lemma RankedBounds(ks: seq<string>, term: string, n: int)
    ensures var r := Ranked(ks, term, n);
            && (n >= 0 ==> |r| <= n)
            && (forall p :: 0 <= p < |r| ==> r[p].0 in ks && r[p].1 == Similarity.Ratio(Normalize(term), r[p].0))
            && (forall p :: 0 <= p < |r| ==> Threshold < r[p].1 <= 1.0)
  {
    var query := Normalize(term);
    var c := Candidates(query, ks);
    CandidatesSound(query, ks);
    var s := SortDesc(c);
    SortDescPermutes(c);
    var r := Take(s, n);
    forall p | 0 <= p < |r|
      ensures r[p] in c
    {
      assert r[p] == s[p];
      assert s[p] in multiset(c);
    }
  }

  /** The scores of `get_similar_terms` never increase, and when `n` allows
      it returns exactly the candidates, none lost and none repeated. */
  lemma RankedOrder(ks: seq<string>, term: string, n: int)
    ensures var r := Ranked(ks, term, n);
            && SortedDesc(r)
            && (n >= |Candidates(Normalize(term), ks)| ==> multiset(r) == multiset(Candidates(Normalize(term), ks)))
  {
    var c := Candidates(Normalize(term), ks);
    var s := SortDesc(c);
    SortDescSorted(c);
    SortDescPermutes(c);
    TakeSorted(s, n);
    assert |s| == |multiset(s)| == |multiset(c)| == |c|;
    if n >= |c| {
      assert Take(s, n) == s;
    }
  }

  /** The cut to `n` keeps the best matches: with `n >= 0` it keeps
      `min(n, |matches|)` of them, and every match left out scores no more
      than every match kept. */
  lemma RankedTop(ks: seq<string>, term: string, n: int)
    ensures var c := Candidates(Normalize(term), ks);
            var r := Ranked(ks, term, n);
            && (n >= 0 ==> |r| == if n <= |c| then n else |c|)
            && multiset(r) <= multiset(c)
            && (forall x: Scored<string>, y: Scored<string> :: x in r && y in multiset(c) - multiset(r) ==> y.1 <= x.1)
  {
    var c := Candidates(Normalize(term), ks);
    var s := SortDesc(c);
    var r := Take(s, n);
    SortDescSorted(c);
    SortDescPermutes(c);
    TakeTop(s, n);
  }

  /** Ties keep store key order: for every score, the pairs that have it are
      the first ones, in key order, of the keys scanned with that score. */
  lemma RankedStable(ks: seq<string>, term: string, n: int, v: real)
    ensures WithScore(Ranked(ks, term, n), v) <= WithScore(Candidates(Normalize(term), ks), v)
  {
    var c := Candidates(Normalize(term), ks);
    var s := SortDesc(c);
    var r := Take(s, n);
    SortDescStable(c, v);
    WithScorePrefix(s, |r|, v);
    assert s[..|r|] == r;
  }

  /** A key of `ks` queried as it is is a candidate with score 1.0. */
  lemma ExactKeyCandidate(ks: seq<string>, key: string)
    requires key in ks
    ensures (key, 1.0) in Candidates(key, ks)
  {
    Similarity.RatioSelf(key);
    CandidatesFacts(key, ks);
  }

  /** A stored key queried as it is comes out first, with score 1.0: no
      other key can score 1.0, since only identical strings do. */
  lemma ExactKeyRanksFirst(ks: seq<string>, key: string, n: int)
    requires key in ks && Normalize(key) == key && n >= 1
    ensures var r := Ranked(ks, key, n); r != [] && r[0] == (key, 1.0)
  {
    var c := Candidates(key, ks);
    ExactKeyCandidate(ks, key);
    CandidatesSound(key, ks);
    var s := SortDesc(c);
    SortDescSorted(c);
    SortDescPermutes(c);
    assert (key, 1.0) in multiset(s);
    var p :| 0 <= p < |s| && s[p] == (key, 1.0);
    assert s[0].1 >= s[p].1;
    assert s[0] in multiset(c);
    Similarity.RatioOne(key, s[0].0);
  }

  /** A data row of `export_csv`. */
  datatype ExportRow = ExportRow(english: string, vietnamese: string, category: string,
                                 confidence: real, lastUpdated: nat)

  /** The export row of one key. */
  function RowOf(key: string, r: TermRecord): ExportRow {
    ExportRow(key, r.vietnamese, r.category, r.confidence, r.lastUpdated)
  }

  /** `float()` applied to the text of a Confidence cell. */
  datatype Confidence = Parsed(value: real) | Unparseable

  /** A row as `csv.DictReader` hands it over: `None` where the file has no
      such column. */
  datatype ImportRow = ImportRow(english: Option<string>, vietnamese: Option<string>,
                                 category: Option<string>, confidence: Option<Confidence>)

  /** `import_csv` passes the row to `add_term`: English and Vietnamese are
      present and the confidence, if there is a column for it, parses. */
  predicate Accepted(row: ImportRow) {
    row.english.Some? && row.vietnamese.Some? && row.confidence != Some(Unparseable)
  }

  /** The arguments `import_csv` gives `add_term` for an accepted row. */
  function RowCategory(row: ImportRow): string {
    if row.category.Some? then row.category.value else "general"
  }

  function RowConfidence(row: ImportRow): real {
    if row.confidence.Some? && row.confidence.value.Parsed? then row.confidence.value.value else 1.0
  }

  /** `import_csv` on the store `st`: `add_term` row by row, in file order;
      the first row that is not accepted raises out of the loop, so it and
      every row after it are dropped, while the rows before it stay applied. */
  function Imported(st: Store, rows: seq<ImportRow>, source: string, stamps: seq<Stamps>): Store
    requires |stamps| == |rows|
    decreases |rows|
  {
    if rows == [] || !Accepted(rows[0]) then st
    else
      var row := rows[0];
      var next := Upsert(st, Normalize(row.english.value),
                         NewRecord(row.vietnamese.value, RowCategory(row), source, RowConfidence(row), stamps[0]));
      Imported(next, rows[1..], source, stamps[1..])
  }

  /** The latest clock reading once `import_csv` has run: the last reading
      taken for the last row imported, or `clock` when no row was. */
  ghost function ImportedClock(clock: nat, rows: seq<ImportRow>, stamps: seq<Stamps>): nat
    requires |stamps| == |rows|
    decreases |rows|
  {
    if rows == [] || !Accepted(rows[0]) then clock
    else ImportedClock(stamps[0].version, rows[1..], stamps[1..])
  }

  /** Every reading of a chain comes no earlier than its start. */
  lemma {:induction false} ChainLast(clock: nat, stamps: seq<Stamps>)
    requires Chain(clock, stamps) && stamps != []
    ensures clock <= stamps[0].version <= stamps[|stamps| - 1].version
    decreases |stamps|
  {
    if |stamps| > 1 {
      ChainLast(stamps[0].version, stamps[1..]);
    }
  }

  /** An import never moves the clock back, and leaves it no later than the
      last reading of the file's rows. */
  lemma {:induction false} ImportedClockBounds(clock: nat, rows: seq<ImportRow>, stamps: seq<Stamps>)
    requires |stamps| == |rows| && Chain(clock, stamps)
    ensures clock <= ImportedClock(clock, rows, stamps)
    ensures rows != [] ==> ImportedClock(clock, rows, stamps) <= stamps[|stamps| - 1].version
    decreases |rows|
  {
    if rows != [] {
      ChainLast(clock, stamps);
      if Accepted(rows[0]) && |rows| > 1 {
        ImportedClockBounds(stamps[0].version, rows[1..], stamps[1..]);
      }
    }
  }

  /** One accepted row of an import. */
  lemma ImportedStep(st: Store, rows: seq<ImportRow>, source: string, stamps: seq<Stamps>)
    requires |stamps| == |rows| && rows != [] && Accepted(rows[0])
    ensures var row := rows[0];
            Imported(st, rows, source, stamps)
            == Imported(Upsert(st, Normalize(row.english.value),
                               NewRecord(row.vietnamese.value, RowCategory(row), source, RowConfidence(row), stamps[0])),
                        rows[1..], source, stamps[1..])
  {
  }

  /** Nothing from the first rejected row on is imported: importing the
      whole file is importing the rows before the rejected one. */
  lemma {:induction false} ImportedStopsAt(st: Store, rows: seq<ImportRow>, source: string,
                                           stamps: seq<Stamps>, i: nat)
    requires |stamps| == |rows| && i < |rows| && !Accepted(rows[i])
    ensures Imported(st, rows, source, stamps) == Imported(st, rows[..i], source, stamps[..i])
    decreases i
  {
    if i > 0 {
      var pre, pst := rows[..i], stamps[..i];
      assert pre[0] == rows[0] && pst[0] == stamps[0];
      if Accepted(rows[0]) {
        var row := rows[0];
        var next := Upsert(st, Normalize(row.english.value),
                           NewRecord(row.vietnamese.value, RowCategory(row), source, RowConfidence(row), stamps[0]));
        ImportedStep(st, rows, source, stamps);
        ImportedStep(st, pre, source, pst);
        assert pre[1..] == rows[1..][..i - 1] && pst[1..] == stamps[1..][..i - 1];
        ImportedStopsAt(next, rows[1..], source, stamps[1..], i - 1);
      }
    }
  }

  /** Importing one more accepted row after accepted rows is one more
      `add_term` on the result. */
  lemma {:induction false} ImportedSnoc(st: Store, rows: seq<ImportRow>, row: ImportRow, source: string,
                                        stamps: seq<Stamps>, at: Stamps)
    requires |stamps| == |rows| && Accepted(row)
    requires forall p :: 0 <= p < |rows| ==> Accepted(rows[p])
    ensures Imported(st, rows + [row], source, stamps + [at])
            == Upsert(Imported(st, rows, source, stamps), Normalize(row.english.value),
                      NewRecord(row.vietnamese.value, RowCategory(row), source, RowConfidence(row), at))
    decreases |rows|
  {
    var rr, ss := rows + [row], stamps + [at];
    ImportedStep(st, rr, source, ss);
    if rows == [] {
      assert rr == [row] && ss == [at];
      assert rr[1..] == [] && ss[1..] == [];
    } else {
      var first := rows[0];
      var next := Upsert(st, Normalize(first.english.value),
                         NewRecord(first.vietnamese.value, RowCategory(first), source, RowConfidence(first), stamps[0]));
      SnocTail(rows, row);
      SnocTail(stamps, at);
      ImportedStep(st, rows, source, stamps);
      ImportedSnoc(next, rows[1..], row, source, stamps[1..], at);
    }
  }

  /** Appending keeps the head and appends to the tail. */
  lemma SnocTail<T>(xs: seq<T>, x: T)
    requires xs != []
    ensures (xs + [x])[0] == xs[0] && (xs + [x])[1..] == xs[1..] + [x]
  {
  }

  /** A later row for the same key wins: when every row is accepted, the
      last row's key ends up with the record that row built, whatever
      earlier rows held for it. */
  lemma LastRowWins(st: Store, rows: seq<ImportRow>, row: ImportRow, source: string,
                    stamps: seq<Stamps>, at: Stamps)
    requires |stamps| == |rows| && Accepted(row)
    requires forall p :: 0 <= p < |rows| ==> Accepted(rows[p])
    ensures var back := Imported(st, rows + [row], source, stamps + [at]);
            var key := Normalize(row.english.value);
            && key in back.terms
            && back.terms[key] == NewRecord(row.vietnamese.value, RowCategory(row), source, RowConfidence(row), at)
  {
    ImportedSnoc(st, rows, row, source, stamps, at);
  }

  /** The row a CSV reader gives back for an exported row: every text cell
      reads back as written (so no cell holds a carriage return, which the
      reader would turn into a line feed), and the float text `export_csv`
      writes parses back to the same confidence. */
  function Reread(e: ExportRow): ImportRow {
    ImportRow(Some(e.english), Some(e.vietnamese), Some(e.category), Some(Parsed(e.confidence)))
  }

  /** The rows `export_csv` writes for a store. */
  function ExportRows(st: Store): (rows: seq<ExportRow>)
    requires forall k :: k in st.keys ==> k in st.terms
    ensures |rows| == |st.keys|
  {
    seq(|st.keys|, p requires 0 <= p < |st.keys| => RowOf(st.keys[p], st.terms[st.keys[p]]))
  }

  /** A file of exported rows, as the CSV reader gives it back. */
  function ReadBack(rows: seq<ExportRow>): (r: seq<ImportRow>)
    ensures |r| == |rows|
  {
    seq(|rows|, p requires 0 <= p < |rows| => Reread(rows[p]))
  }

  /** The exported rows of `st` from position `i` on, read back. */
  function RereadFrom(st: Store, i: nat): (rows: seq<ImportRow>)
    requires i <= |st.keys|
    requires forall k :: k in st.keys ==> k in st.terms
    ensures |rows| == |st.keys| - i
    decreases |st.keys| - i
  {
    if i == |st.keys| then []
    else [Reread(RowOf(st.keys[i], st.terms[st.keys[i]]))] + RereadFrom(st, i + 1)
  }

  /** `acc` holds the first `i` exported keys of `st`, as importing them makes
      them: the same keys in the same order, the same translation, category
      and confidence, and a fresh one-version history with the import source. */
  ghost predicate ReimportedUpTo(st: Store, acc: Store, i: nat, source: string)
    requires i <= |st.keys|
    requires forall k :: k in st.keys ==> k in st.terms
  {
    && acc.keys == st.keys[..i]
    && (forall k :: k in acc.terms <==> k in acc.keys)
    && (forall k | k in acc.terms ::
          && acc.terms[k].vietnamese == st.terms[k].vietnamese
          && acc.terms[k].category == st.terms[k].category
          && acc.terms[k].confidence == st.terms[k].confidence
          && acc.terms[k].source == source
          && |acc.terms[k].versions| == 1)
  }

  /** Importing the row of the `i`-th exported key extends what has been
      reimported by that key. */
  lemma ReimportOne(st: Store, clock: nat, acc: Store, i: nat, source: string, at: Stamps)
    requires StoreOk(st, clock)
    requires i < |st.keys|
    requires ReimportedUpTo(st, acc, i, source)
    ensures var row := Reread(RowOf(st.keys[i], st.terms[st.keys[i]]));
            && Accepted(row) && Normalize(row.english.value) == st.keys[i]
            && ReimportedUpTo(st, Upsert(acc, st.keys[i],
                 NewRecord(row.vietnamese.value, RowCategory(row), source, RowConfidence(row), at)), i + 1, source)
  {
    var key := st.keys[i];
    KeyIsNormal(key);
    StripFixedPoint(st.terms[key].vietnamese);
    assert key !in acc.keys by {
      forall p | 0 <= p < i
        ensures acc.keys[p] != key
      {
        assert acc.keys[p] == st.keys[p];
      }
    }
    assert st.keys[..i + 1] == st.keys[..i] + [key];
  }

  lemma {:induction false} ReimportStep(st: Store, clock: nat, acc: Store, i: nat, source: string, stamps: seq<Stamps>)
    requires StoreOk(st, clock)
    requires i <= |st.keys| && |stamps| == |st.keys| - i
    requires ReimportedUpTo(st, acc, i, source)
    ensures ReimportedUpTo(st, Imported(acc, RereadFrom(st, i), source, stamps), |st.keys|, source)
    decreases |st.keys| - i
  {
    var rows := RereadFrom(st, i);
    if i < |st.keys| {
      var row := rows[0];
      assert rows[1..] == RereadFrom(st, i + 1);
      ReimportOne(st, clock, acc, i, source, stamps[0]);
      var next := Upsert(acc, st.keys[i],
                         NewRecord(row.vietnamese.value, RowCategory(row), source, RowConfidence(row), stamps[0]));
      assert Imported(acc, rows, source, stamps) == Imported(next, rows[1..], source, stamps[1..]);
      ReimportStep(st, clock, next, i + 1, source, stamps[1..]);
    }
  }

  /** `back` has the keys of `st` in the same order, each with the same
      translation, category and confidence, and a one-version history whose
      source is `source`. */
  ghost predicate Restored(st: Store, back: Store, source: string) {
    && back.keys == st.keys
    && (forall k :: k in back.terms <==> k in st.terms)
    && (forall k | k in st.terms ::
          && back.terms[k].vietnamese == st.terms[k].vietnamese
          && back.terms[k].category == st.terms[k].category
          && back.terms[k].confidence == st.terms[k].confidence
          && back.terms[k].source == source
          && |back.terms[k].versions| == 1)
  }

  /** Exporting a store and importing the file into an empty store gives
      back the same keys in the same order, each with the same translation,
      category and confidence; every history restarts at one version whose
      source is the import source. */
  lemma ExportImportRoundTrip(st: Store, clock: nat, source: string, stamps: seq<Stamps>)
    requires StoreOk(st, clock)
    requires |stamps| == |st.keys|
    ensures Restored(st, Imported(Store([], map[]), ReadBack(ExportRows(st)), source, stamps), source)
  {
    RereadAll(st);
    var back := Imported(Store([], map[]), RereadFrom(st, 0), source, stamps);
    ReimportStep(st, clock, Store([], map[]), 0, source, stamps);
    ReimportedAll(st, clock, back, source);
  }

  /** Having reimported every exported key is having restored the store. */
  lemma ReimportedAll(st: Store, clock: nat, back: Store, source: string)
    requires StoreOk(st, clock)
    requires ReimportedUpTo(st, back, |st.keys|, source)
    ensures Restored(st, back, source)
  {
    assert st.keys[..|st.keys|] == st.keys;
  }

  /** The exported rows, read back, are the rows `RereadFrom` lists. */
  lemma RereadAll(st: Store)
    requires forall k :: k in st.keys ==> k in st.terms
    ensures ReadBack(ExportRows(st)) == RereadFrom(st, 0)
  {
    RereadFromAt(st, 0);
  }

  lemma {:induction false} RereadFromAt(st: Store, i: nat)
    requires i <= |st.keys|
    requires forall k :: k in st.keys ==> k in st.terms
    ensures forall p :: 0 <= p < |st.keys| - i ==> RereadFrom(st, i)[p] == Reread(ExportRows(st)[i + p])
    decreases |st.keys| - i
  {
    if i < |st.keys| {
      RereadFromAt(st, i + 1);
    }
  }

  /** A record stays valid as the clock moves on. */
  lemma RecordOkLater(r: TermRecord, clock: nat, later: nat)
    requires RecordOk(r, clock) && clock <= later
    ensures RecordOk(r, later)
  {
  }

  /** `add_term` builds a valid record. */
  lemma NewRecordOk(vietnamese: string, category: string, source: string, confidence: real, at: Stamps, clock: nat)
    requires StampsFrom(clock, at)
    ensures RecordOk(NewRecord(vietnamese, category, source, confidence, at), at.version)
  {
    StripHasNoEdgeSpace(vietnamese);
  }

  /** `update_term` keeps a record valid: the appended version is the newest
      and the current fields follow it. */
  lemma WithVersionOk(r: TermRecord, clock: nat, vietnamese: string, source: string, confidence: real,
                      versionAt: nat, updatedAt: nat)
    requires RecordOk(r, clock) && clock <= versionAt <= updatedAt
    ensures RecordOk(WithVersion(r, vietnamese, source, confidence, versionAt, updatedAt), updatedAt)
  {
    StripHasNoEdgeSpace(vietnamese);
    var r' := WithVersion(r, vietnamese, source, confidence, versionAt, updatedAt);
    assert forall p :: 0 <= p < |r.versions| ==> r'.versions[p] == r.versions[p];
  }

  /** Storing a valid record under a key keeps the store invariant. */
  lemma UpsertOk(st: Store, clock: nat, key: string, r: TermRecord, later: nat)
    requires StoreOk(st, clock) && clock <= later
    requires IsKey(key) && RecordOk(r, later)
    ensures StoreOk(Upsert(st, key, r), later)
  {
    var st' := Upsert(st, key, r);
    forall k | k in st.terms
      ensures RecordOk(st.terms[k], later)
    {
      RecordOkLater(st.terms[k], clock, later);
    }
    if key !in st.keys {
      forall p, q | 0 <= p < q < |st'.keys|
        ensures st'.keys[p] != st'.keys[q]
      {
        if q == |st.keys| {
          assert st.keys[p] in st.keys;
        }
      }
    }
  }

  /** `update_term` of a stored key keeps the store invariant. */
  lemma UpdateOk(st: Store, clock: nat, key: string, vietnamese: string, source: string, confidence: real,
                 versionAt: nat, updatedAt: nat)
    requires StoreOk(st, clock) && key in st.terms && clock <= versionAt <= updatedAt
    ensures StoreOk(Store(st.keys, st.terms[key := WithVersion(st.terms[key], vietnamese, source, confidence,
                                                               versionAt, updatedAt)]), updatedAt)
  {
    var r := WithVersion(st.terms[key], vietnamese, source, confidence, versionAt, updatedAt);
    WithVersionOk(st.terms[key], clock, vietnamese, source, confidence, versionAt, updatedAt);
    UpsertOk(st, clock, key, r, updatedAt);
    assert Upsert(st, key, r) == Store(st.keys, st.terms[key := r]);
  }

  class MedicalDictionary {
    var keys: seq<string>
    var terms: map<string, TermRecord>
    /** The latest clock reading handed to the store. */
    ghost var clock: nat

    ghost predicate Valid()
      reads this
    {
      StoreOk(Store(keys, terms), clock)
    }

    function State(): Store
      reads this
    {
      Store(keys, terms)
    }

    /** A store whose backing file does not exist yet: empty. */
    constructor ()
      ensures Valid() && keys == [] && terms == map[] && clock == 0
    {
      keys := [];
      terms := map[];
      clock := 0;
    }

    /** `add_term`: an unconditional upsert. The record at the normalised key
        is replaced by a new one with a single version, whatever history it
        had; a new key is appended to the key order, an existing key keeps its
        place; nothing else changes. It always reports success. */
    method AddTerm(english: string, vietnamese: string, category: string := "general",
                   source: string := "manual", confidence: real := 1.0, at: Stamps)
      returns (ok: bool)
      requires Valid() && StampsFrom(clock, at)
      modifies this
      ensures Valid() && ok
      ensures State() == Upsert(old(State()), Normalize(english), NewRecord(vietnamese, category, source, confidence, at))
      ensures clock == at.version
    {
      var key := Normalize(english);
      var v := Strip(vietnamese);
      var record := TermRecord(v, category, source, confidence, at.added, at.updated,
                               [Version(v, confidence, at.version, source)]);
      NormalizeIsKey(english);
      NewRecordOk(vietnamese, category, source, confidence, at, clock);
      UpsertOk(State(), clock, key, record, at.version);
      if key !in terms {
        keys := keys + [key];
      }
      terms := terms[key := record];
      clock := at.version;
      ok := true;
    }

    /** `update_term`: on an absent normalised key, fails and changes nothing;
        on a present key, appends one version to the history (the old versions
        stay as they were, in front), overwrites the current translation,
        confidence, source and `last_updated`, and leaves the category and
        `added_date` alone. */
    method UpdateTerm(english: string, vietnamese: string, source: string := "manual",
                      confidence: real := 1.0, versionAt: nat, updatedAt: nat)
      returns (ok: bool)
      requires Valid() && clock <= versionAt <= updatedAt
      modifies this
      ensures Valid()
      ensures ok <==> Normalize(english) in old(terms)
      ensures keys == old(keys)
      ensures !ok ==> terms == old(terms) && clock == old(clock)
      ensures ok ==> terms == old(terms)[Normalize(english) :=
                        WithVersion(old(terms)[Normalize(english)], vietnamese, source, confidence, versionAt, updatedAt)]
      ensures ok ==> clock == updatedAt
    {
      var key := Normalize(english);
      var v := Strip(vietnamese);
      if key !in terms {
        ok := false;
        return;
      }
      var term := terms[key];
      var versions := term.versions + [Version(v, confidence, versionAt, source)];
      term := term.(versions := versions, vietnamese := v, confidence := confidence,
                    lastUpdated := updatedAt, source := source);
      assert term == WithVersion(terms[key], vietnamese, source, confidence, versionAt, updatedAt);
      UpdateOk(State(), clock, key, vietnamese, source, confidence, versionAt, updatedAt);
      terms := terms[key := term];
      clock := updatedAt;
      ok := true;
    }

    /** `get_translation`: the record at the normalised key, or nothing; it
        reads the store and changes nothing. */
    function GetTranslation(english: string): (r: Option<TermRecord>)
      reads this
      ensures r.Some? <==> Normalize(english) in terms
      ensures r.Some? ==> r.value == terms[Normalize(english)]
    {
      Lookup(terms, english)
    }

    /** `get_similar_terms`: scans the keys in order, keeps those whose ratio
        against the normalised term is above 0.6, then sorts them by
        descending score (stable) and keeps the first `n`. */
    method GetSimilarTerms(term: string, n: int := 5) returns (r: seq<Scored<string>>)
      ensures r == Ranked(keys, term, n)
    {
      var query := Normalize(term);
      var ks := keys;
      var matches: seq<Scored<string>> := [];
      var i := 0;
      while i < |ks|
        invariant 0 <= i <= |ks|
        invariant matches == Candidates(query, ks[..i])
      {
        var key := ks[i];
        var ratio := Similarity.Ratio(query, key);
        CandidatesStep(query, ks, i);
        if ratio > Threshold {
          matches := matches + [(key, ratio)];
        }
        i := i + 1;
      }
      assert ks[..i] == ks;
      r := Take(SortDesc(matches), n);
    }

    /** The data rows of `export_csv`: one per key, in key order, with the
        key's current translation, category, confidence and `last_updated`. */
    method ExportCsv() returns (rows: seq<ExportRow>)
      requires Valid()
      ensures |rows| == |keys|
      ensures forall p :: 0 <= p < |rows| ==> rows[p] == RowOf(keys[p], terms[keys[p]])
      ensures rows == ExportRows(State())
    {
      rows := [];
      var i := 0;
      while i < |keys|
        invariant 0 <= i <= |keys|
        invariant |rows| == i
        invariant forall p :: 0 <= p < i ==> rows[p] == RowOf(keys[p], terms[keys[p]])
      {
        var english := keys[i];
        var data := terms[english];
        rows := rows + [ExportRow(english, data.vietnamese, data.category, data.confidence, data.lastUpdated)];
        i := i + 1;
      }
    }

    /** `import_csv`: `add_term` on each row in file order. The first row
        without an English or Vietnamese value, or whose confidence does not
        parse, ends the import and the rows after it are never read; the rows
        before it stay imported. */
    method ImportCsv(rows: seq<ImportRow>, source: string := "import", stamps: seq<Stamps>)
      requires Valid() && |stamps| == |rows| && Chain(clock, stamps)
      modifies this
      ensures Valid()
      ensures State() == Imported(old(State()), rows, source, stamps)
      ensures clock == ImportedClock(old(clock), rows, stamps)
      ensures old(clock) <= clock && (rows != [] ==> clock <= stamps[|stamps| - 1].version)
    {
      ImportedClockBounds(clock, rows, stamps);
      var i := 0;
      while i < |rows|
        invariant 0 <= i <= |rows|
        invariant Valid()
        invariant Chain(clock, stamps[i..])
        invariant Imported(State(), rows[i..], source, stamps[i..]) == Imported(old(State()), rows, source, stamps)
        invariant ImportedClock(clock, rows[i..], stamps[i..]) == ImportedClock(old(clock), rows, stamps)
      {
        var row := rows[i];
        ghost var rest, at := rows[i..], stamps[i..];
        assert rest[0] == row && at[0] == stamps[i];
        if row.english.None? || row.vietnamese.None? {
          break;
        }
        var confidence := 1.0;
        match row.confidence {
          case Some(Unparseable) => break;
          case Some(Parsed(value)) => confidence := value;
          case None =>
        }
        var category := if row.category.Some? then row.category.value else "general";
        assert category == RowCategory(row) && confidence == RowConfidence(row);
        ImportedStep(State(), rest, source, at);
        assert rest[1..] == rows[i + 1..] && at[1..] == stamps[i + 1..];
        var _ := AddTerm(row.english.value, row.vietnamese.value, category, source, confidence, stamps[i]);
        i := i + 1;
      }
    }
  }
}
