/**
 * The wrong-answer list of app/components/WrongListClient.tsx: the `reduce`
 * that groups missed questions by the key `question + "__" + answer`,
 * keeping the first entry of each group and counting its entries, and
 * `Object.values` that turns the groups into display rows.
 */
module WrongList {
  import opened Types

  /** The exported `Question` interface. */
  datatype Question = Question(question: string, answer: OX, explanation: string)

  /** One group of the accumulator: the entry kept for display and how many entries fell into it. */
  datatype Row = Row(item: Question, count: nat)

  /** The identity of a group: question text and answer; the explanation plays no part. */
  datatype Ident = Ident(question: string, answer: OX)

  function IdentOf(q: Question): Ident
  {
    Ident(q.question, q.answer)
  }

  /** The string key the source builds: the question text, two underscores, then `O` or `X`. */
  function Key(q: Question): string
  {
    q.question + "__" + Symbol(q.answer)
  }

  /**
   * The string key is faithful to the identity: equal keys exactly when the
   * identities are equal. This is what lets the model key groups by `Ident`.
   */
  lemma KeyIdentifies(a: Question, b: Question)
    ensures Key(a) == Key(b) <==> IdentOf(a) == IdentOf(b)
  {
    if Key(a) == Key(b) {
      var n := |a.question|;
      assert |Key(a)| == n + 3 && |Key(b)| == |b.question| + 3;
      assert Key(a)[..n] == a.question;
      assert Key(b)[..n] == b.question;
      assert Key(a)[n + 2..] == Symbol(a.answer);
      assert Key(b)[n + 2..] == Symbol(b.answer);
    }
  }

  /** A string made of decimal digits only, the shape of the keys an object lists before all others. */
  predicate IndexLike(k: string)
  {
    |k| > 0 && forall i :: 0 <= i < |k| ==> '0' <= k[i] <= '9'
  }

  /** No group key is index-like, so the accumulator lists its keys in insertion order. */
  lemma KeyIsNotIndexLike(q: Question)
    ensures !IndexLike(Key(q))
  {
    assert Key(q)[|q.question|] == '_';
  }

  /** The names every plain JavaScript object inherits from `Object.prototype`. */
  const InheritedNames: set<string> := {
    "constructor", "hasOwnProperty", "isPrototypeOf", "propertyIsEnumerable",
    "toLocaleString", "toString", "valueOf", "__proto__",
    "__defineGetter__", "__defineSetter__", "__lookupGetter__", "__lookupSetter__"}

  /**
   * No key names an inherited member, since every key ends in `O` or `X`, so
   * `!acc[key]` is true exactly for a key the fold has not stored yet.
   */
  lemma KeyIsNotInherited(q: Question)
    ensures Key(q) !in InheritedNames
  {
    var k := Key(q);
    assert k[|k| - 1] == Symbol(q.answer)[0];
    assert k[|k| - 1] == 'O' || k[|k| - 1] == 'X';
  }

  /**
   * The accumulator object. Since no key is index-like, `Object.values`
   * lists the groups in insertion order: `order` is that order and
   * `entries` the groups by identity.
   */
  datatype Counts = Counts(order: seq<Ident>, entries: map<Ident, Row>)

  /** How many entries of `ws` have identity `id`. */
  function Count(ws: seq<Question>, id: Ident): (n: nat)
    ensures n <= |ws|
  {
    if |ws| == 0 then 0
    else Count(ws[..|ws| - 1], id) + (if IdentOf(ws[|ws| - 1]) == id then 1 else 0)
  }

  /** The position of the first entry of `ws` with identity `id`, or `|ws|` if there is none. */
  function FirstIndex(ws: seq<Question>, id: Ident): (r: nat)
    ensures r <= |ws|
    ensures r < |ws| ==> IdentOf(ws[r]) == id
  {
    if |ws| == 0 then 0
    else if IdentOf(ws[0]) == id then 0
    else 1 + FirstIndex(ws[1..], id)
  }

  /** Keys are listed once each, and the listed keys are exactly the stored ones. */
  predicate WellFormed(c: Counts)
  {
    && Distinct(c.order)
    && (forall k :: k in c.entries ==> k in c.order)
    && (forall k :: k in c.order ==> k in c.entries)
  }

  /** The reducer: create the group of `cur` with count 0 if it is new, then add one to its count. */
  function Add(acc: Counts, cur: Question): (c: Counts)
    requires WellFormed(acc)
    ensures WellFormed(c)
  {
    var k := IdentOf(cur);
    var acc1 := if k !in acc.entries then Counts(acc.order + [k], acc.entries[k := Row(cur, 0)]) else acc;
    acc1.(entries := acc1.entries[k := acc1.entries[k].(count := acc1.entries[k].count + 1)])
  }

  /** `wrongAnswers.reduce(reducer, {})`: folds the entries in order, starting from the empty object. */
  function Aggregate(ws: seq<Question>): (c: Counts)
    ensures WellFormed(c)
  {
    if |ws| == 0 then Counts([], map[])
    else Add(Aggregate(ws[..|ws| - 1]), ws[|ws| - 1])
  }

  /** `Object.values(counts)`: the groups in key insertion order. */
  function Values(c: Counts): (rows: seq<Row>)
    requires WellFormed(c)
    ensures |rows| == |c.order|
  {
    seq(|c.order|, i requires 0 <= i < |c.order| => c.entries[c.order[i]])
  }

  /** The `rows` the component renders for a list of missed questions. */
  function Rows(ws: seq<Question>): seq<Row>
  {
    Values(Aggregate(ws))
  }

  // Facts about first occurrences and counts.

  /** No entry before the first occurrence has the identity. */
  lemma {:induction false} FirstIndexIsFirst(ws: seq<Question>, id: Ident, l: nat)
    requires l < FirstIndex(ws, id)
    ensures IdentOf(ws[l]) != id
  {
    if l > 0 {
      FirstIndexIsFirst(ws[1..], id, l - 1);
    }
  }

  /** An entry with the identity, preceded by none, is the first occurrence. */
  lemma {:induction false} FirstIndexUnique(ws: seq<Question>, id: Ident, r: nat)
    requires r < |ws| && IdentOf(ws[r]) == id
    requires forall l :: 0 <= l < r ==> IdentOf(ws[l]) != id
    ensures FirstIndex(ws, id) == r
  {
    if r > 0 {
      assert IdentOf(ws[0]) != id;
      forall l | 0 <= l < r - 1
        ensures IdentOf(ws[1..][l]) != id
      {
        assert ws[1..][l] == ws[l + 1];
      }
      FirstIndexUnique(ws[1..], id, r - 1);
    }
  }

  /** Without any entry of the identity, the first occurrence is past the end. */
  lemma {:induction false} FirstIndexAbsent(ws: seq<Question>, id: Ident)
    requires forall l :: 0 <= l < |ws| ==> IdentOf(ws[l]) != id
    ensures FirstIndex(ws, id) == |ws|
  {
    if |ws| > 0 {
      assert IdentOf(ws[0]) != id;
      forall l | 0 <= l < |ws| - 1
        ensures IdentOf(ws[1..][l]) != id
      {
        assert ws[1..][l] == ws[l + 1];
      }
      FirstIndexAbsent(ws[1..], id);
    }
  }

  /** Appending an entry does not move the first occurrence of an identity already present. */
  lemma FirstIndexAppend(pre: seq<Question>, q: Question, id: Ident)
    ensures FirstIndex(pre + [q], id)
         == if FirstIndex(pre, id) < |pre| then FirstIndex(pre, id)
            else if IdentOf(q) == id then |pre| else |pre| + 1
  {
    var ws := pre + [q];
    var r := FirstIndex(pre, id);
    forall l | 0 <= l < r
      ensures IdentOf(ws[l]) != id
    {
      FirstIndexIsFirst(pre, id, l);
      assert ws[l] == pre[l];
    }
    if r < |pre| {
      assert ws[r] == pre[r];
      FirstIndexUnique(ws, id, r);
    } else if IdentOf(q) == id {
      FirstIndexUnique(ws, id, |pre|);
    } else {
      FirstIndexAbsent(ws, id);
    }
  }

  lemma CountAppend(pre: seq<Question>, q: Question, id: Ident)
    ensures Count(pre + [q], id) == Count(pre, id) + (if IdentOf(q) == id then 1 else 0)
  {
    assert (pre + [q])[..|pre|] == pre;
  }

  /** An identity is counted at least once exactly when it occurs. */
  lemma {:induction false} CountedIffPresent(ws: seq<Question>, id: Ident)
    ensures Count(ws, id) > 0 <==> FirstIndex(ws, id) < |ws|
  {
    if |ws| > 0 {
      var pre := ws[..|ws| - 1];
      var q := ws[|ws| - 1];
      assert pre + [q] == ws;
      CountedIffPresent(pre, id);
      FirstIndexAppend(pre, q, id);
      CountAppend(pre, q, id);
    }
  }

  // The fold invariant.

  /** Every entry of `ws` has a group in `c`. */
  ghost predicate Covers(c: Counts, ws: seq<Question>)
  {
    forall j :: 0 <= j < |ws| ==> IdentOf(ws[j]) in c.entries
  }

  /** Every group keeps the first entry of `ws` with its identity. */
  ghost predicate KeepsFirst(c: Counts, ws: seq<Question>)
  {
    forall k :: k in c.entries ==> FirstIndex(ws, k) < |ws| && c.entries[k].item == ws[FirstIndex(ws, k)]
  }

  /** Every group counts the entries of `ws` with its identity. */
  ghost predicate CountsAll(c: Counts, ws: seq<Question>)
  {
    forall k :: k in c.entries ==> c.entries[k].count == Count(ws, k)
  }

  /** Groups are listed in the order their identities first occur in `ws`. */
  ghost predicate FirstOccurrenceOrder(c: Counts, ws: seq<Question>)
  {
    forall a, b :: 0 <= a < b < |c.order| ==> FirstIndex(ws, c.order[a]) < FirstIndex(ws, c.order[b])
  }

  /**
   * What the accumulator holds after folding `ws`: a group for every entry,
   * holding the first entry with its identity and the number of entries
   * with it, listed in order of first occurrence.
   */
  ghost predicate Describes(c: Counts, ws: seq<Question>)
  {
    && WellFormed(c)
    && Covers(c, ws)
    && KeepsFirst(c, ws)
    && CountsAll(c, ws)
    && FirstOccurrenceOrder(c, ws)
  }

  /** The effect of one reducer step, group by group. */
  lemma AddShape(c: Counts, q: Question)
    requires WellFormed(c)
    ensures IdentOf(q) in Add(c, q).entries
    ensures IdentOf(q) !in c.entries ==>
      Add(c, q).order == c.order + [IdentOf(q)] && Add(c, q).entries[IdentOf(q)] == Row(q, 1)
    ensures IdentOf(q) in c.entries ==>
      && Add(c, q).order == c.order
      && Add(c, q).entries[IdentOf(q)] == c.entries[IdentOf(q)].(count := c.entries[IdentOf(q)].count + 1)
    ensures forall k :: k in c.entries && k != IdentOf(q) ==> k in Add(c, q).entries && Add(c, q).entries[k] == c.entries[k]
    ensures forall k :: k in Add(c, q).entries ==> k in c.entries || k == IdentOf(q)
  {
  }

  /** A group not created yet has no entry so far. */
  lemma NewIdentIsAbsent(c: Counts, pre: seq<Question>, id: Ident)
    requires Covers(c, pre) && id !in c.entries
    ensures FirstIndex(pre, id) == |pre|
    ensures Count(pre, id) == 0
  {
    forall l | 0 <= l < |pre|
      ensures IdentOf(pre[l]) != id
    {
    }
    FirstIndexAbsent(pre, id);
    CountedIffPresent(pre, id);
  }

  lemma AddCovers(c: Counts, ws: seq<Question>)
    requires |ws| > 0 && WellFormed(c) && Covers(c, ws[..|ws| - 1])
    ensures Covers(Add(c, ws[|ws| - 1]), ws)
  {
    var q := ws[|ws| - 1];
    AddShape(c, q);
    forall j | 0 <= j < |ws|
      ensures IdentOf(ws[j]) in Add(c, q).entries
    {
      if j < |ws| - 1 {
        assert ws[j] == ws[..|ws| - 1][j];
      }
    }
  }

  lemma AddKeepsFirst(c: Counts, ws: seq<Question>)
    requires |ws| > 0 && WellFormed(c)
    requires Covers(c, ws[..|ws| - 1]) && KeepsFirst(c, ws[..|ws| - 1])
    ensures KeepsFirst(Add(c, ws[|ws| - 1]), ws)
  {
    var pre := ws[..|ws| - 1];
    var q := ws[|ws| - 1];
    assert ws == pre + [q];
    var c' := Add(c, q);
    AddShape(c, q);
    if IdentOf(q) !in c.entries {
      NewIdentIsAbsent(c, pre, IdentOf(q));
    }
    forall k | k in c'.entries
      ensures FirstIndex(ws, k) < |ws| && c'.entries[k].item == ws[FirstIndex(ws, k)]
    {
      FirstIndexAppend(pre, q, k);
      if k in c.entries {
        var f := FirstIndex(pre, k);
        assert f < |pre| && c.entries[k].item == pre[f];
        assert c'.entries[k].item == c.entries[k].item;
        assert ws[f] == pre[f];
      } else {
        assert k == IdentOf(q) && FirstIndex(ws, k) == |pre|;
      }
    }
  }

  lemma AddCountsAll(c: Counts, ws: seq<Question>)
    requires |ws| > 0 && WellFormed(c)
    requires Covers(c, ws[..|ws| - 1]) && CountsAll(c, ws[..|ws| - 1])
    ensures CountsAll(Add(c, ws[|ws| - 1]), ws)
  {
    var pre := ws[..|ws| - 1];
    var q := ws[|ws| - 1];
    assert ws == pre + [q];
    var c' := Add(c, q);
    AddShape(c, q);
    if IdentOf(q) !in c.entries {
      NewIdentIsAbsent(c, pre, IdentOf(q));
    }
    forall k | k in c'.entries
      ensures c'.entries[k].count == Count(ws, k)
    {
      CountAppend(pre, q, k);
    }
  }

  lemma AddKeepsOrder(c: Counts, ws: seq<Question>)
    requires |ws| > 0 && WellFormed(c)
    requires Covers(c, ws[..|ws| - 1]) && KeepsFirst(c, ws[..|ws| - 1])
    requires FirstOccurrenceOrder(c, ws[..|ws| - 1])
    ensures FirstOccurrenceOrder(Add(c, ws[|ws| - 1]), ws)
  {
    var pre := ws[..|ws| - 1];
    var q := ws[|ws| - 1];
    assert ws == pre + [q];
    var c' := Add(c, q);
    var id := IdentOf(q);
    AddShape(c, q);
    if id !in c.entries {
      NewIdentIsAbsent(c, pre, id);
    }
    forall a, b | 0 <= a < b < |c'.order|
      ensures FirstIndex(ws, c'.order[a]) < FirstIndex(ws, c'.order[b])
    {
      FirstIndexAppend(pre, q, c'.order[a]);
      FirstIndexAppend(pre, q, c'.order[b]);
      assert c'.order[a] == c.order[a];
      assert c.order[a] in c.entries;
      if b < |c.order| {
        assert c'.order[b] == c.order[b];
        assert c.order[b] in c.entries;
      } else {
        assert c'.order[b] == id;
      }
    }
  }

  /** One step of the reducer keeps the accumulator describing the entries seen so far. */
  lemma AddDescribes(c: Counts, ws: seq<Question>)
    requires |ws| > 0 && Describes(c, ws[..|ws| - 1])
    ensures Describes(Add(c, ws[|ws| - 1]), ws)
  {
    AddCovers(c, ws);
    AddKeepsFirst(c, ws);
    AddCountsAll(c, ws);
    AddKeepsOrder(c, ws);
  }

  /** The reduce describes its input: `AddDescribes` carried along the fold. */
  lemma {:induction false} AggregateDescribes(ws: seq<Question>)
    ensures Describes(Aggregate(ws), ws)
  {
    if |ws| > 0 {
      AggregateDescribes(ws[..|ws| - 1]);
      AddDescribes(Aggregate(ws[..|ws| - 1]), ws);
    }
  }

  /** Total of the `count` column. */
  function Sum(rows: seq<Row>): nat
  {
    if |rows| == 0 then 0 else Sum(rows[..|rows| - 1]) + rows[|rows| - 1].count
  }

  lemma SumAppend(rows: seq<Row>, r: Row)
    ensures Sum(rows + [r]) == Sum(rows) + r.count
  {
    assert (rows + [r])[..|rows|] == rows;
  }

  /** Changing one row changes the total by the change in its count. */
  lemma {:induction false} SumUpdate(rows: seq<Row>, p: nat, r: Row)
    requires p < |rows|
    ensures Sum(rows[p := r]) == Sum(rows) - rows[p].count + r.count
  {
    var n := |rows|;
    var rows' := rows[p := r];
    assert rows'[..n - 1] == if p == n - 1 then rows[..n - 1] else rows[..n - 1][p := r];
    if p < n - 1 {
      SumUpdate(rows[..n - 1], p, r);
    }
  }

  /** Each reducer step adds exactly one to the total of the counts. */
  lemma AddSum(c: Counts, q: Question)
    requires WellFormed(c)
    ensures Sum(Values(Add(c, q))) == Sum(Values(c)) + 1
  {
    var c' := Add(c, q);
    var id := IdentOf(q);
    AddShape(c, q);
    if id !in c.entries {
      assert Values(c') == Values(c) + [Row(q, 1)];
      SumAppend(Values(c), Row(q, 1));
    } else {
      var p :| 0 <= p < |c.order| && c.order[p] == id;
      assert Values(c') == Values(c)[p := c'.entries[id]];
      SumUpdate(Values(c), p, c'.entries[id]);
    }
  }

  /** The row for a position of the listing is the group of the identity listed there. */
  lemma RowsListing(ws: seq<Question>)
    ensures Describes(Aggregate(ws), ws)
    ensures |Rows(ws)| == |Aggregate(ws).order|
    ensures forall i :: 0 <= i < |Rows(ws)| ==>
      Rows(ws)[i] == Aggregate(ws).entries[Aggregate(ws).order[i]] && IdentOf(Rows(ws)[i].item) == Aggregate(ws).order[i]
  {
    AggregateDescribes(ws);
  }

  /**
   * Each distinct (question, answer) pair among the missed entries yields
   * exactly one row: no two rows share an identity, and every entry's
   * identity has a row.
   */
  lemma RowsOnePerIdentity(ws: seq<Question>)
    ensures forall i, j :: 0 <= i < j < |Rows(ws)| ==> IdentOf(Rows(ws)[i].item) != IdentOf(Rows(ws)[j].item)
    ensures forall j :: 0 <= j < |ws| ==>
      exists i :: 0 <= i < |Rows(ws)| && IdentOf(Rows(ws)[i].item) == IdentOf(ws[j])
  {
    RowsListing(ws);
    var c := Aggregate(ws);
    forall j | 0 <= j < |ws|
      ensures exists i :: 0 <= i < |Rows(ws)| && IdentOf(Rows(ws)[i].item) == IdentOf(ws[j])
    {
      var i :| 0 <= i < |c.order| && c.order[i] == IdentOf(ws[j]);
      assert IdentOf(Rows(ws)[i].item) == IdentOf(ws[j]);
    }
  }

  /** A row's count is the number of missed entries with its question and answer, hence at least one. */
  lemma RowsCountOccurrences(ws: seq<Question>)
    ensures forall i :: 0 <= i < |Rows(ws)| ==>
      Rows(ws)[i].count == Count(ws, IdentOf(Rows(ws)[i].item)) && Rows(ws)[i].count >= 1
  {
    RowsListing(ws);
    forall i | 0 <= i < |Rows(ws)|
      ensures Rows(ws)[i].count >= 1
    {
      CountedIffPresent(ws, IdentOf(Rows(ws)[i].item));
    }
  }

  /**
   * A row shows the first missed entry with its question and answer; a later
   * entry of the same pair, whatever its explanation, does not replace it.
   */
  lemma RowsKeepFirstOccurrence(ws: seq<Question>)
    ensures forall i :: 0 <= i < |Rows(ws)| ==>
      var f := FirstIndex(ws, IdentOf(Rows(ws)[i].item));
      f < |ws| && Rows(ws)[i].item == ws[f]
  {
    RowsListing(ws);
  }

  /** Rows appear in the order their question and answer first occur among the missed entries. */
  lemma RowsInFirstOccurrenceOrder(ws: seq<Question>)
    ensures forall i, j :: 0 <= i < j < |Rows(ws)| ==>
      FirstIndex(ws, IdentOf(Rows(ws)[i].item)) < FirstIndex(ws, IdentOf(Rows(ws)[j].item))
  {
    RowsListing(ws);
  }

  /** The counts add up to the number of missed entries. */
  lemma {:induction false} RowCountsSumToLength(ws: seq<Question>)
    ensures Sum(Rows(ws)) == |ws|
  {
    if |ws| > 0 {
      RowCountsSumToLength(ws[..|ws| - 1]);
      AddSum(Aggregate(ws[..|ws| - 1]), ws[|ws| - 1]);
    }
  }

  /** There are rows exactly when there are missed entries; none shows the empty-list message otherwise. */
  lemma NoRowsWithoutMisses(ws: seq<Question>)
    ensures |Rows(ws)| == 0 <==> |ws| == 0
  {
    RowCountsSumToLength(ws);
    if |ws| > 0 {
      RowsOnePerIdentity(ws);
      var i :| 0 <= i < |Rows(ws)| && IdentOf(Rows(ws)[i].item) == IdentOf(ws[0]);
    }
  }

  /**
   * Two misses with the same question and answer make one row with count 2
   * that shows the first of them, whatever the second one's explanation.
   */
  lemma FirstExplanationWins(a: Question, b: Question)
    requires IdentOf(a) == IdentOf(b)
    ensures Rows([a, b]) == [Row(a, 2)]
  {
    var ws := [a, b];
    var id := IdentOf(a);
    assert ws[..1] == [a];
    assert ws[..1][..0] == [];
    assert Aggregate(ws[..1]) == Counts([id], map[id := Row(a, 1)]);
    assert Aggregate(ws) == Counts([id], map[id := Row(a, 2)]);
  }
}
