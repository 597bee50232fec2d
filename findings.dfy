/** The error taxonomy shared by every parser (the `errors` hash of the LEF
    tool), the run-wide frequency tables filled while parsing, and the rarity
    analysis that turns rarely used values into findings. */
module Findings {

  /** The category keys of the `errors` hash. */
  datatype Category =
    | LineEndingSemicolons
    | MissingPropertyDefinitions
    | MissingEndLibraryToken
    | MangledCellEnd
    | MissingCellEnd
    | UnknownPinProperty
    | UnknownCellProperty
    | UnknownLayer
    | MissingOrigin
    | StrangeOrigin
    | StrangeForeign
    | MissingClass
    | StrangeClass
    | MissingSymmetry
    | StrangeSymmetry
    | MissingSize
    | MissingSite
    | StrangeSite
    | MissingDirection
    | StrangeDirection
    | MissingUse
    | StrangeUse
    | LefMissingCell
    | LefMissingPin
    | LibertyMissingCell
    | LibertyMissingPin
    | AreaMismatch
    | LibertyIncorrectPinProperty

  /** The `errors` hash: the findings of each category, oldest first. A
      category without an entry has no findings. */
  type Log = map<Category, seq<string>>

  function Get(log: Log, c: Category): seq<string> {
    if c in log then log[c] else []
  }

  /** `errors[c].push(m)`. */
  function Push(log: Log, c: Category, m: string): (r: Log)
    ensures Get(r, c) == Get(log, c) + [m]
    ensures forall d {:trigger Get(r, d)} | d != c :: Get(r, d) == Get(log, d)
  {
    log[c := Get(log, c) + [m]]
  }

  /** `errors[c].push(m)` for every message of `ms`, in order. */
  function PushAll(log: Log, c: Category, ms: seq<string>): (r: Log)
    ensures Get(r, c) == Get(log, c) + ms
    ensures forall d {:trigger Get(r, d)} | d != c :: Get(r, d) == Get(log, d)
  {
    log[c := Get(log, c) + ms]
  }

  // ---------------------------------------------------------------------
  // Frequency tables

  /** The five run-wide frequency tables (`@@classes_found`,
      `@@symmetries_found`, `@@sites_found`, `@@directions_found`,
      `@@uses_found`). */
  datatype Table = Classes | Symmetries | Sites | Directions | Uses

  /** One frequency table: each declared value with the messages of the lines
      that declared it, values in the order they were first seen (the order of
      a Ruby Hash). */
  type Tally = seq<(string, seq<string>)>

  type Tables = map<Table, Tally>

  function TallyOf(ts: Tables, k: Table): Tally {
    if k in ts then ts[k] else []
  }

  function Keys(t: Tally): (ks: seq<string>)
    ensures |ks| == |t|
    ensures forall i | 0 <= i < |t| :: ks[i] == t[i].0
  {
    if t == [] then [] else Keys(t[..|t| - 1]) + [t[|t| - 1].0]
  }

  predicate DistinctKeys(t: Tally) {
    forall i, j | 0 <= i < j < |t| :: t[i].0 != t[j].0
  }

  /** Every entry holds at least one message: a value is only entered when a
      line declares it. */
  predicate Populated(t: Tally) {
    forall i | 0 <= i < |t| :: t[i].1 != []
  }

  /** `register_property(table, value, message)`: append the message to the
      value's list, entering the value at the end when it is new. */
  function Register(t: Tally, v: string, m: string): (r: Tally)
    ensures v in Keys(t) ==> |r| == |t|
    ensures v !in Keys(t) ==> r == t + [(v, [m])]
    ensures forall i | 0 <= i < |t| :: r[i].0 == t[i].0
    ensures Populated(t) ==> Populated(r)
  {
    if t == [] then [(v, [m])]
    else
      var last := t[|t| - 1];
      if last.0 == v then t[..|t| - 1] + [(v, last.1 + [m])]
      else if v in Keys(t[..|t| - 1]) then Register(t[..|t| - 1], v, m) + [last]
      else t + [(v, [m])]
  }

  /** `r` is `t` with `m` appended to the list of value `v` and every other
      list unchanged, its values still distinct. */
  ghost predicate RegisteredIn(t: Tally, r: Tally, v: string, m: string) {
    && |r| >= |t|
    && (forall i | 0 <= i < |t| :: r[i].1 == if t[i].0 == v then t[i].1 + [m] else t[i].1)
    && DistinctKeys(r)
  }

  /** On a table with distinct values, registering appends the message to the
      value's own list and leaves every other list alone; the values stay
      distinct. */
  lemma {:induction false} RegisterUpdates(t: Tally, v: string, m: string)
    requires DistinctKeys(t)
    ensures RegisteredIn(t, Register(t, v, m), v, m)
  {
    if t != [] {
      var init, last := t[..|t| - 1], t[|t| - 1];
      if last.0 == v {
        RegisterAtLast(t, v, m);
      } else if v in Keys(init) {
        assert DistinctKeys(init) && t == init + [last];
        RegisterUpdates(init, v, m);
        assert Register(t, v, m) == Register(init, v, m) + [last];
        RegisteredBeforeLast(init, last, Register(init, v, m), v, m);
      } else {
        RegisterNew(t, v, m);
      }
    }
  }

  lemma RegisterAtLast(t: Tally, v: string, m: string)
    requires DistinctKeys(t) && t != [] && t[|t| - 1].0 == v
    ensures RegisteredIn(t, Register(t, v, m), v, m)
  {
    var n := |t| - 1;
    var r := t[..n] + [(v, t[n].1 + [m])];
    assert Register(t, v, m) == r;
    assert forall i | 0 <= i < n :: r[i] == t[i] && t[i].0 != v;
  }

  /** An entry for another value kept at the end of both tables. */
  lemma RegisteredBeforeLast(init: Tally, last: (string, seq<string>), r': Tally, v: string, m: string)
    requires RegisteredIn(init, r', v, m) && |r'| == |init|
    requires forall i | 0 <= i < |init| :: r'[i].0 == init[i].0
    requires last.0 != v && DistinctKeys(init + [last])
    ensures RegisteredIn(init + [last], r' + [last], v, m)
  {
    var t, r, n := init + [last], r' + [last], |init|;
    forall i | 0 <= i < |t| ensures r[i].1 == if t[i].0 == v then t[i].1 + [m] else t[i].1 {
      if i < n {
        assert r[i] == r'[i] && t[i] == init[i];
      }
    }
    forall i, j | 0 <= i < j < |r| ensures r[i].0 != r[j].0 {
      if j < n {
        assert r[i] == r'[i] && r[j] == r'[j];
      } else {
        assert r[i].0 == r'[i].0 == init[i].0 == t[i].0;
      }
    }
  }

  lemma RegisterNew(t: Tally, v: string, m: string)
    requires DistinctKeys(t) && v !in Keys(t)
    ensures RegisteredIn(t, Register(t, v, m), v, m)
  {
    forall i | 0 <= i < |t| ensures t[i].0 != v {
      assert Keys(t)[i] == t[i].0;
    }
    assert Register(t, v, m) == t + [(v, [m])];
  }

  /** The tables stay well formed: distinct values, each with a message. */
  predicate ValidTables(ts: Tables) {
    forall k | k in ts :: DistinctKeys(ts[k]) && Populated(ts[k])
  }

  /** `register_property` on one of the five tables. */
  function RegisterIn(ts: Tables, k: Table, v: string, m: string): (r: Tables)
    ensures TallyOf(r, k) == Register(TallyOf(ts, k), v, m)
    ensures forall j | j != k :: TallyOf(r, j) == TallyOf(ts, j)
  {
    ts[k := Register(TallyOf(ts, k), v, m)]
  }

  lemma RegisterInValid(ts: Tables, k: Table, v: string, m: string)
    requires ValidTables(ts)
    ensures ValidTables(RegisterIn(ts, k, v, m))
  {
    RegisterUpdates(TallyOf(ts, k), v, m);
  }

  // ---------------------------------------------------------------------
  // Rarity

  /** The divisor applied to the mean count (`rarity_factor_cutoff`). */
  const RarityFactor: nat := 5

  /** Number of messages in the whole table. */
  function Total(t: Tally): nat {
    if t == [] then 0 else Total(t[..|t| - 1]) + |t[|t| - 1].1|
  }

  /** A value is rare when its count is below this bound:
      (total div distinct values) div 5, computed only for a non-empty table. */
  function Cutoff(t: Tally): nat {
    if |t| == 0 then 0 else (Total(t) / |t|) / RarityFactor
  }

  /** The messages of the values of `t` whose count is below `cutoff`, in
      table order. */
  function RareFrom(t: Tally, cutoff: nat): seq<string> {
    if t == [] then []
    else
      var last := t[|t| - 1];
      RareFrom(t[..|t| - 1], cutoff) + (if |last.1| < cutoff then last.1 else [])
  }

  /** What `check_for_uncommon_properties` appends for one table. */
  function RareMessages(t: Tally): seq<string> {
    RareFrom(t, Cutoff(t))
  }

  /** A message is reported exactly when it belongs to a value whose count is
      below the cutoff. */
  lemma {:induction false} RareFromMembership(t: Tally, cutoff: nat, m: string)
    ensures m in RareFrom(t, cutoff) <==>
      exists i | 0 <= i < |t| :: |t[i].1| < cutoff && m in t[i].1
  {
    if t != [] {
      var init := t[..|t| - 1];
      RareFromMembership(init, cutoff, m);
      if m in RareFrom(t, cutoff) && m !in RareFrom(init, cutoff) {
        var i := |t| - 1;
        assert |t[i].1| < cutoff && m in t[i].1;
      }
      if exists i | 0 <= i < |t| :: |t[i].1| < cutoff && m in t[i].1 {
        var i :| 0 <= i < |t| && |t[i].1| < cutoff && m in t[i].1;
        if i < |t| - 1 {
          assert init[i] == t[i];
        }
      }
    }
  }

  /** The messages of every flagged value are reported whole and in order: the
      report is the concatenation, in table order, of the message lists of the
      values below the cutoff, so it is never longer than the table's total. */
  lemma {:induction false} RareFromBounded(t: Tally, cutoff: nat)
    ensures |RareFrom(t, cutoff)| <= Total(t)
    ensures cutoff == 0 ==> RareFrom(t, cutoff) == []
  {
    if t != [] {
      RareFromBounded(t[..|t| - 1], cutoff);
    }
  }

  /** `check_for_uncommon_properties` flags a message iff its value's count is
      strictly below (total div distinct values) div 5; an empty table flags
      nothing. */
  lemma RareMessagesMeaning(t: Tally, m: string)
    ensures m in RareMessages(t) <==>
      |t| > 0 && exists i | 0 <= i < |t| :: |t[i].1| < (Total(t) / |t|) / RarityFactor && m in t[i].1
    ensures t == [] ==> RareMessages(t) == []
  {
    RareFromMembership(t, Cutoff(t), m);
  }

  lemma {:induction false} TotalUniform(t: Tally, c: nat)
    requires forall i | 0 <= i < |t| :: |t[i].1| == c
    ensures Total(t) == |t| * c
  {
    if t != [] {
      TotalUniform(t[..|t| - 1], c);
    }
  }

  /** A table in which every value occurs equally often flags nothing. */
  lemma UniformTableNotRare(t: Tally, c: nat)
    requires forall i | 0 <= i < |t| :: |t[i].1| == c
    ensures RareMessages(t) == []
  {
    if t != [] {
      TotalUniform(t, c);
      DivOfMultiple(|t|, c);
      assert Cutoff(t) == c / RarityFactor;
      NothingBelow(t, Cutoff(t), c);
    }
  }

  // Arithmetic proof helper; it models nothing in the tool.
  lemma DivOfMultiple(n: nat, c: nat)
    requires n > 0
    ensures (n * c) / n == c
  {
    var q := (n * c) / n;
    var r := (n * c) % n;
    assert n * c == n * q + r && 0 <= r < n;
    if q < c {
      MulMonotone(n, q, c - 1);
    } else if q > c {
      MulMonotone(n, c + 1, q);
    }
  }

  // Arithmetic proof helper; it models nothing in the tool.
  lemma MulMonotone(n: nat, a: int, b: int)
    requires a <= b
    ensures n * a <= n * b
  {
  }

  lemma {:induction false} NothingBelow(t: Tally, cutoff: nat, c: nat)
    requires forall i | 0 <= i < |t| :: |t[i].1| == c
    requires cutoff <= c
    ensures RareFrom(t, cutoff) == []
  {
    if t != [] {
      NothingBelow(t[..|t| - 1], cutoff, c);
    }
  }

  /** The comparison is strict and uses integer division: a value seen once
      among 100 declarations of 20 distinct values is not rare, because the
      cutoff (100 div 20) div 5 is 1. */
  lemma OnceInHundredOverTwentyNotRare(t: Tally, i: nat, m: string)
    requires Total(t) == 100 && |t| == 20
    requires i < |t| && t[i].1 == [m]
    requires forall j | 0 <= j < |t| && j != i :: m !in t[j].1
    ensures m !in RareMessages(t)
  {
    assert Cutoff(t) == 1;
    RareFromMembership(t, Cutoff(t), m);
  }
}
