/** The account of one breach, filled record by record within bounds. */
module BreachAccount {
  import opened Prelude
  import opened Text
  import opened BreachRecord
  import opened BreachExposure

  datatype Account = Account(fields: set<string>, values: map<string, set<string>>, exposed: bool)

  const EMPTY: Account := Account({}, map[], false)

  function Kept(values: map<string, set<string>>, field: string): set<string> {
    if field in values then values[field] else {}
  }

  function AddWithin(seen: set<string>, x: string, bound: nat): set<string> {
    if |seen| < bound then seen + {x} else seen
  }

  // What exposing and merging do to an account

  function ExposeOne(a: Account, entry: Entry, compact: Json -> Option<string>): Account {
    if !Present(entry.value) then a
    else
      var exposed := a.exposed || Exposes(entry);
      match FieldName(entry.key)
      case None => a.(exposed := exposed)
      case Some(field) =>
        if |a.fields| < MAX_FIELDS || field in a.fields then
          var text := TextOf(entry, compact);
          var values := if text.None? then a.values
                        else a.values[field := AddWithin(Kept(a.values, field), text.value, MAX_VALUES_PER_FIELD)];
          Account(a.fields + {field}, values, exposed)
        else a.(exposed := exposed)
  }

  function ExposeAll(a: Account, named: seq<Entry>, compact: Json -> Option<string>): Account
    decreases |named|
  {
    if named == [] then a else ExposeAll(ExposeOne(a, named[0], compact), named[1..], compact)
  }

  predicate IsLeast(s: set<string>, m: string) {
    m in s && forall x | x in s :: x == m || Less(m, x)
  }

  lemma {:induction false} LeastExists(s: set<string>)
    requires s != {}
    ensures exists m :: IsLeast(s, m)
    ensures forall m, n :: IsLeast(s, m) && IsLeast(s, n) ==> m == n
    decreases |s|
  {
    hide Less;
    forall m, n | IsLeast(s, m) && IsLeast(s, n)
      ensures m == n
    {
      LessTotal(m, n);
    }
    var x :| x in s;
    var rest := s - {x};
    assert forall y | y in s :: y == x || y in rest;
    if rest == {} {
      assert IsLeast(s, x);
    } else {
      LeastExists(rest);
      var m :| IsLeast(rest, m);
      LessTotal(x, m);
      if Less(x, m) {
        forall y | y in rest && y != m
          ensures Less(x, y)
        {
          LessTransitive(x, m, y);
        }
        assert IsLeast(s, x);
      } else {
        assert IsLeast(s, m);
      }
    }
  }

  /** The members of `held` added in ascending order, while there is room. */
  ghost function FoldIn(seen: set<string>, held: set<string>, bound: nat): set<string>
    decreases |held|
  {
    if held == {} then seen
    else
      LeastExists(held);
      var m :| IsLeast(held, m);
      FoldIn(AddWithin(seen, m, bound), held - {m}, bound)
  }

  ghost function MergedValues(fields: set<string>, into: map<string, set<string>>, from: map<string, set<string>>)
    : map<string, set<string>>
  {
    map field | field in into.Keys + from.Keys && (field in into || field in fields) ::
      if field in from && field in fields then FoldIn(Kept(into, field), from[field], MAX_VALUES_PER_FIELD)
      else into[field]
  }

  ghost function MergeInto(a: Account, fields: set<string>, values: map<string, set<string>>): Account {
    var kept := FoldIn(a.fields, fields, MAX_FIELDS);
    Account(kept, MergedValues(kept, a.values, values), a.exposed)
  }

  /** Merging one more field of `from` changes that field's values alone. */
  lemma {:induction false} MergedStep(fields: set<string>, into: map<string, set<string>>,
                                      from: map<string, set<string>>, rest: set<string>, field: string)
    requires field in rest && rest <= from.Keys
    ensures
      var before := MergedValues(fields, into, from - rest);
      && Kept(before, field) == Kept(into, field)
      && MergedValues(fields, into, from - (rest - {field})) ==
         if field in fields then before[field := FoldIn(Kept(into, field), from[field], MAX_VALUES_PER_FIELD)]
         else before
  {
    hide FoldIn;
  }

  lemma {:induction false} MergedEnds(fields: set<string>, into: map<string, set<string>>, from: map<string, set<string>>)
    ensures MergedValues(fields, into, from - from.Keys) == into
    ensures from - {} == from
  {
    hide FoldIn;
  }

  // The account in place

  class Breach {
    var fields: set<string>
    var values: map<string, set<string>>
    var passwordExposed: bool

    function State(): Account
      reads this
    {
      Account(fields, values, passwordExposed)
    }

    constructor ()
      ensures State() == EMPTY
    {
      fields, values, passwordExposed := {}, map[], false;
    }

    /** `named` is the record's keys and values, less the record's own metadata. */
    method Expose(named: seq<Entry>, compact: Json -> Option<string>)
      modifies this
      ensures State() == ExposeAll(old(State()), named, compact)
    {
      hide NamesAPassword, HoldsCredential, IsCredential, FieldName, RecordValue, Present;
      for i := 0 to |named|
        invariant ExposeAll(State(), named[i..], compact) == ExposeAll(old(State()), named, compact)
      {
        var key, value := named[i].key, named[i].value;
        ghost var before := State();
        assert named[i..][0] == named[i] && named[i..][1..] == named[i + 1..];
        if !Present(value) {
          continue;
        }
        var credential := IsCredential(key);
        if NamesAPassword(key) || HoldsCredential(value, NamesAPassword, Present) {
          passwordExposed := true;
        }
        var name := FieldName(key);
        if name.None? {
          continue;
        }
        var field := name.value;
        if |fields| < MAX_FIELDS || field in fields {
          if !credential && !HoldsCredential(value, IsCredential, Every) {
            var text := RecordValue(value, compact);
            if text.Some? {
              var seen := Kept(values, field);
              if |seen| < MAX_VALUES_PER_FIELD {
                seen := seen + {text.value};
              }
              values := values[field := seen];
            }
          }
          fields := fields + {field};
        }
        assert State() == ExposeOne(before, named[i], compact);
      }
    }

    method MergeFields(from: set<string>)
      modifies this`fields
      ensures fields == FoldIn(old(fields), from, MAX_FIELDS)
    {
      var rest := from;
      while rest != {}
        invariant FoldIn(fields, rest, MAX_FIELDS) == FoldIn(old(fields), from, MAX_FIELDS)
        decreases |rest|
      {
        LeastExists(rest);
        var field :| field in rest && IsLeast(rest, field);
        assert field in fields ==> fields + {field} == fields;
        if |fields| < MAX_FIELDS || field in fields {
          fields := fields + {field};
        }
        rest := rest - {field};
      }
    }

    /** Folds another account's fields and values into this one. */
    method Merge(fromFields: set<string>, fromValues: map<string, set<string>>)
      modifies this
      ensures State() == MergeInto(old(State()), fromFields, fromValues)
    {
      hide FoldIn, MergedValues, Kept, Less;
      MergeFields(fromFields);
      var rest := fromValues.Keys;
      MergedEnds(fields, values, fromValues);
      while rest != {}
        invariant rest <= fromValues.Keys
        invariant fields == FoldIn(old(fields), fromFields, MAX_FIELDS) && passwordExposed == old(passwordExposed)
        invariant values == MergedValues(fields, old(values), fromValues - rest)
        decreases |rest|
      {
        LeastExists(rest);
        var field :| field in rest && IsLeast(rest, field);
        MergedStep(fields, old(values), fromValues, rest, field);
        if field in fields {
          var seen := FoldValues(Kept(values, field), fromValues[field]);
          values := values[field := seen];
        }
        rest := rest - {field};
      }
    }
  }

  method FoldValues(seen0: set<string>, held: set<string>) returns (seen: set<string>)
    ensures seen == FoldIn(seen0, held, MAX_VALUES_PER_FIELD)
  {
    seen := seen0;
    var rest := held;
    while rest != {}
      invariant FoldIn(seen, rest, MAX_VALUES_PER_FIELD) == FoldIn(seen0, held, MAX_VALUES_PER_FIELD)
      decreases |rest|
    {
      LeastExists(rest);
      var value :| value in rest && IsLeast(rest, value);
      if |seen| >= MAX_VALUES_PER_FIELD {
        FoldFull(seen, rest, MAX_VALUES_PER_FIELD);
        break;
      }
      seen := seen + {value};
      rest := rest - {value};
    }
  }

  lemma {:induction false} FoldFull(seen: set<string>, held: set<string>, bound: nat)
    requires |seen| >= bound
    ensures FoldIn(seen, held, bound) == seen
    decreases |held|
  {
    if held != {} {
      LeastExists(held);
      var m :| IsLeast(held, m);
      FoldFull(seen, held - {m}, bound);
    }
  }

  // Runs: every way an account comes about

  datatype Run =
    | Start
    | Expose(earlier: Run, named: seq<Entry>)
    | Merge(into: Run, from: Run)

  ghost function Eval(run: Run, compact: Json -> Option<string>): Account {
    match run
    case Start => EMPTY
    case Expose(earlier, named) => ExposeAll(Eval(earlier, compact), named, compact)
    case Merge(into, from) =>
      var a, b := Eval(into, compact), Eval(from, compact);
      MergeInto(a, b.fields, b.values).(exposed := a.exposed || b.exposed)
  }

  /** Every entry exposed in a run. */
  function Shown(run: Run): seq<Entry> {
    match run
    case Start => []
    case Expose(earlier, named) => Shown(earlier) + named
    case Merge(into, from) => Shown(into) + Shown(from)
  }

  /** The fields the entries name. */
  ghost function FieldsOf(es: seq<Entry>): set<string> {
    set e | e in es && FieldOf(e).Some? :: FieldOf(e).value
  }

  /** The values the entries give a field, those that carry a credential left out. */
  ghost function ValuesOf(es: seq<Entry>, field: string, compact: Json -> Option<string>): set<string> {
    set e | e in es && FieldOf(e) == Some(field) && TextOf(e, compact).Some? :: TextOf(e, compact).value
  }

  /** As much of `whole` as the bound allows. */
  ghost predicate Sample(part: set<string>, whole: set<string>, bound: nat) {
    part <= whole && |part| == Min(|whole|, bound)
  }

  ghost predicate TellsFields(a: Account, es: seq<Entry>) {
    Sample(a.fields, FieldsOf(es), 64)
  }

  ghost predicate TellsPassword(a: Account, es: seq<Entry>) {
    a.exposed <==> exists e :: e in es && ShowsPassword(e)
  }

  ghost predicate Bounded(a: Account) {
    && |a.fields| <= 64 && a.values.Keys <= a.fields
    && forall field | field in a.values :: 0 < |a.values[field]| <= 64
  }

  ghost predicate TellsValues(a: Account, es: seq<Entry>, compact: Json -> Option<string>) {
    && (forall field :: Kept(a.values, field) <= ValuesOf(es, field, compact))
    && (|FieldsOf(es)| <= 64 ==>
          forall field :: Sample(Kept(a.values, field), ValuesOf(es, field, compact), 64))
  }

  /** The fields and values of the entries, by what the entries show. */
  lemma {:induction false} GivenExact(es: seq<Entry>, field: string, text: string, compact: Json -> Option<string>)
    ensures field in FieldsOf(es) <==> exists e :: e in es && ShowsField(e, field)
    ensures text in ValuesOf(es, field, compact) <==>
      exists e :: e in es && ShowsField(e, field) && ShowsText(e, text, compact)
  {
    hide FieldOf, TextOf, ShowsField, ShowsText;
    forall e
      ensures FieldOf(e) == Some(field) <==> ShowsField(e, field)
      ensures TextOf(e, compact) == Some(text) <==> ShowsText(e, text, compact)
    {
      FieldOfExact(e, field);
      TextOfExact(e, text, compact);
    }
  }

  // Samples

  lemma {:induction false} SubsetSize<T>(s: set<T>, t: set<T>)
    requires s <= t
    ensures |s| <= |t| && (|s| == |t| ==> s == t)
    decreases |s|
  {
    if s != {} {
      var x :| x in s;
      SubsetSize(s - {x}, t - {x});
      assert s - {x} == t - {x} ==> s == (s - {x}) + {x} == (t - {x}) + {x} == t;
    }
  }

  lemma {:induction false} SampleWhole(part: set<string>, whole: set<string>, bound: nat)
    requires Sample(part, whole, bound) && |whole| <= bound
    ensures part == whole
  {
    SubsetSize(part, whole);
  }

  lemma {:induction false} SampleAdd(part: set<string>, whole: set<string>, x: string, bound: nat)
    requires Sample(part, whole, bound)
    ensures Sample(AddWithin(part, x, bound), whole + {x}, bound)
  {
    SubsetSize(whole, whole + {x});
    if |part| < bound {
      SampleWhole(part, whole, bound);
    }
  }

  lemma {:induction false} SampleFold(part: set<string>, whole: set<string>, held: set<string>, bound: nat)
    requires Sample(part, whole, bound)
    ensures Sample(FoldIn(part, held, bound), whole + held, bound)
    decreases |held|
  {
    hide Sample, AddWithin;
    if held == {} {
      assert whole + held == whole;
    } else {
      LeastExists(held);
      var m :| IsLeast(held, m);
      SampleAdd(part, whole, m, bound);
      SampleFold(AddWithin(part, m, bound), whole + {m}, held - {m}, bound);
      assert whole + {m} + (held - {m}) == whole + held;
    }
  }

  /** Folding one sample into another samples the union. */
  lemma {:induction false} SampleUnion(part: set<string>, whole: set<string>, held: set<string>, all: set<string>, bound: nat)
    requires Sample(part, whole, bound) && Sample(held, all, bound)
    ensures Sample(FoldIn(part, held, bound), whole + all, bound)
  {
    hide FoldIn;
    SampleFold(part, whole, held, bound);
    SubsetSize(whole + held, whole + all);
    if |held| < bound {
      SampleWhole(held, all, bound);
    } else {
      SubsetSize(held, whole + held);
    }
  }

  lemma {:induction false} FoldWithin(seen: set<string>, held: set<string>, bound: nat)
    ensures seen <= FoldIn(seen, held, bound) <= seen + held
    ensures |seen| <= bound ==> |FoldIn(seen, held, bound)| <= bound
    decreases |held|
  {
    if held != {} {
      LeastExists(held);
      var m :| IsLeast(held, m);
      FoldWithin(AddWithin(seen, m, bound), held - {m}, bound);
    }
  }

  /** What a full set leaves out comes after what it took. */
  lemma {:induction false} FoldLeast(seen: set<string>, held: set<string>, bound: nat, taken: string, left: string)
    requires taken in FoldIn(seen, held, bound) && taken !in seen
    requires left in held && left !in FoldIn(seen, held, bound)
    ensures Precedes(taken, left)
    decreases |held|
  {
    LeastExists(held);
    var m :| IsLeast(held, m);
    hide Less;
    if |seen| >= bound {
      FoldFull(seen, held, bound);
    } else {
      FoldWithin(seen + {m}, held - {m}, bound);
      if taken == m {
        LessExact(m, left);
      } else {
        FoldLeast(seen + {m}, held - {m}, bound, taken, left);
      }
    }
  }

  lemma {:induction false} FoldFirst(held: set<string>, bound: nat)
    requires held != {} && bound > 0
    ensures FoldIn({}, held, bound) != {}
  {
    LeastExists(held);
    var m :| IsLeast(held, m);
    FoldWithin({m}, held - {m}, bound);
    assert AddWithin({}, m, bound) == {m};
  }

  // One entry

  lemma {:induction false} FieldsOfJoin(es: seq<Entry>, fs: seq<Entry>)
    ensures FieldsOf(es + fs) == FieldsOf(es) + FieldsOf(fs)
  {
    hide FieldOf;
  }

  lemma {:induction false} FieldsOfOne(e: Entry)
    ensures FieldsOf([e]) == if FieldOf(e).Some? then {FieldOf(e).value} else {}
  {
    hide FieldOf;
  }

  lemma {:induction false} ValuesOfJoin(es: seq<Entry>, fs: seq<Entry>, field: string, compact: Json -> Option<string>)
    ensures ValuesOf(es + fs, field, compact) == ValuesOf(es, field, compact) + ValuesOf(fs, field, compact)
  {
    hide FieldOf, TextOf;
  }

  lemma {:induction false} ValuesOfOne(e: Entry, field: string, compact: Json -> Option<string>)
    ensures ValuesOf([e], field, compact) ==
      if FieldOf(e) == Some(field) && TextOf(e, compact).Some? then {TextOf(e, compact).value} else {}
  {
    hide FieldOf, TextOf;
  }

  lemma {:induction false} ExposeTellsFields(a: Account, es: seq<Entry>, e: Entry, compact: Json -> Option<string>)
    requires TellsFields(a, es)
    ensures TellsFields(ExposeOne(a, e, compact), es + [e])
  {
    hide FieldsOf, FieldName, Present, TextOf, Exposes;
    FieldsOfJoin(es, [e]);
    FieldsOfOne(e);
    if FieldOf(e).Some? {
      var field := FieldOf(e).value;
      SampleAdd(a.fields, FieldsOf(es), field, MAX_FIELDS);
      assert field in a.fields ==> a.fields + {field} == a.fields;
    } else {
      assert FieldsOf(es) + {} == FieldsOf(es);
    }
  }

  lemma {:induction false} ExposeTellsPassword(a: Account, es: seq<Entry>, e: Entry, compact: Json -> Option<string>)
    requires TellsPassword(a, es)
    ensures TellsPassword(ExposeOne(a, e, compact), es + [e])
  {
    hide FieldName, Present, TextOf;
    assert Exposes(e) ==> Present(e.value);
    hide Exposes, ShowsPassword;
    ExposesExact(e);
    assert e in es + [e];
  }

  lemma {:induction false} ExposeBounded(a: Account, e: Entry, compact: Json -> Option<string>)
    requires Bounded(a)
    ensures Bounded(ExposeOne(a, e, compact))
  {
    hide FieldName, Present, TextOf, Exposes;
  }

  lemma {:induction false} ExposeTellsValues(a: Account, es: seq<Entry>, e: Entry, compact: Json -> Option<string>)
    requires TellsFields(a, es) && TellsValues(a, es, compact)
    ensures TellsValues(ExposeOne(a, e, compact), es + [e], compact)
  {
    hide FieldsOf, ValuesOf, FieldName, Present, TextOf, Exposes, Sample, AddWithin;
    var after := ExposeOne(a, e, compact);
    FieldsOfJoin(es, [e]);
    FieldsOfOne(e);
    SubsetSize(FieldsOf(es), FieldsOf(es + [e]));
    forall field
      ensures Kept(after.values, field) <= ValuesOf(es + [e], field, compact)
      ensures |FieldsOf(es + [e])| <= MAX_FIELDS ==>
        Sample(Kept(after.values, field), ValuesOf(es + [e], field, compact), MAX_VALUES_PER_FIELD)
    {
      ExposeTellsValue(a, es, e, field, compact);
    }
  }

  lemma {:induction false} ExposeTellsValue(a: Account, es: seq<Entry>, e: Entry, field: string, compact: Json -> Option<string>)
    requires TellsFields(a, es) && Kept(a.values, field) <= ValuesOf(es, field, compact)
    requires |FieldsOf(es)| <= MAX_FIELDS ==>
      Sample(Kept(a.values, field), ValuesOf(es, field, compact), MAX_VALUES_PER_FIELD)
    ensures
      var after := ExposeOne(a, e, compact);
      && Kept(after.values, field) <= ValuesOf(es + [e], field, compact)
      && (|FieldsOf(es + [e])| <= MAX_FIELDS ==>
            Sample(Kept(after.values, field), ValuesOf(es + [e], field, compact), MAX_VALUES_PER_FIELD))
  {
    hide FieldsOf, ValuesOf, FieldName, Present, TextOf, Exposes, Sample, AddWithin;
    ValuesOfJoin(es, [e], field, compact);
    ValuesOfOne(e, field, compact);
    if FieldOf(e) == Some(field) && TextOf(e, compact).Some? {
      AddsWithin(Kept(a.values, field), TextOf(e, compact).value, MAX_VALUES_PER_FIELD);
      if |FieldsOf(es + [e])| <= MAX_FIELDS {
        RoomLeft(a, es, e);
        SampleAdd(Kept(a.values, field), ValuesOf(es, field, compact), TextOf(e, compact).value, MAX_VALUES_PER_FIELD);
      }
    } else {
      assert ValuesOf(es, field, compact) + {} == ValuesOf(es, field, compact);
      if |FieldsOf(es + [e])| <= MAX_FIELDS {
        FieldsOfJoin(es, [e]);
        SubsetSize(FieldsOf(es), FieldsOf(es + [e]));
      }
    }
  }

  lemma AddsWithin(seen: set<string>, x: string, bound: nat)
    ensures AddWithin(seen, x, bound) <= seen + {x}
  {
  }

  /** A field that stays within the bound is not turned away. */
  lemma {:induction false} RoomLeft(a: Account, es: seq<Entry>, e: Entry)
    requires TellsFields(a, es) && FieldOf(e).Some? && |FieldsOf(es + [e])| <= MAX_FIELDS
    ensures |a.fields| < MAX_FIELDS || FieldOf(e).value in a.fields
    ensures |FieldsOf(es)| <= MAX_FIELDS
  {
    hide FieldsOf, FieldOf;
    FieldsOfJoin(es, [e]);
    FieldsOfOne(e);
    SubsetSize(FieldsOf(es), FieldsOf(es + [e]));
    SampleWhole(a.fields, FieldsOf(es), MAX_FIELDS);
  }

  // Whole runs

  ghost predicate Tells(a: Account, es: seq<Entry>, compact: Json -> Option<string>) {
    Bounded(a) && TellsFields(a, es) && TellsPassword(a, es) && TellsValues(a, es, compact)
  }

  lemma {:induction false} ExposeAllTells(a: Account, es: seq<Entry>, named: seq<Entry>, compact: Json -> Option<string>)
    requires Tells(a, es, compact)
    ensures Tells(ExposeAll(a, named, compact), es + named, compact)
    decreases |named|
  {
    hide Bounded, TellsFields, TellsPassword, TellsValues, ExposeOne;
    if named == [] {
      assert es + named == es;
    } else {
      ExposeBounded(a, named[0], compact);
      ExposeTellsFields(a, es, named[0], compact);
      ExposeTellsPassword(a, es, named[0], compact);
      ExposeTellsValues(a, es, named[0], compact);
      ExposeAllTells(ExposeOne(a, named[0], compact), es + [named[0]], named[1..], compact);
      assert es + [named[0]] + named[1..] == es + named;
    }
  }

  lemma {:induction false} MergeBounded(a: Account, b: Account)
    requires Bounded(a) && Bounded(b)
    ensures Bounded(MergeInto(a, b.fields, b.values))
  {
    hide FoldIn;
    var merged := MergeInto(a, b.fields, b.values);
    FoldWithin(a.fields, b.fields, MAX_FIELDS);
    forall field | field in merged.values
      ensures field in merged.fields && 0 < |merged.values[field]| <= MAX_VALUES_PER_FIELD
    {
      if field in b.values && field in merged.fields {
        FoldWithin(Kept(a.values, field), b.values[field], MAX_VALUES_PER_FIELD);
        if field in a.values {
          SubsetSize(a.values[field], merged.values[field]);
        } else {
          FoldFirst(b.values[field], MAX_VALUES_PER_FIELD);
        }
      }
    }
  }

  /** What a merge keeps of one field. */
  lemma {:induction false} MergeKept(a: Account, b: Account, field: string)
    ensures
      var merged := MergeInto(a, b.fields, b.values);
      Kept(merged.values, field) ==
        if field in merged.fields then FoldIn(Kept(a.values, field), Kept(b.values, field), MAX_VALUES_PER_FIELD)
        else Kept(a.values, field)
  {
    FoldNothing(Kept(a.values, field), MAX_VALUES_PER_FIELD);
    hide FoldIn;
  }

  lemma FoldNothing(seen: set<string>, bound: nat)
    ensures FoldIn(seen, {}, bound) == seen
  {
  }

  lemma {:induction false} MergeTells(a: Account, es: seq<Entry>, b: Account, fs: seq<Entry>, compact: Json -> Option<string>)
    requires Tells(a, es, compact) && Tells(b, fs, compact)
    ensures Tells(MergeInto(a, b.fields, b.values).(exposed := a.exposed || b.exposed), es + fs, compact)
  {
    hide FoldIn, FieldsOf, ValuesOf, MergedValues, Kept, ShowsPassword, Sample;
    var merged := MergeInto(a, b.fields, b.values);
    MergeBounded(a, b);
    FieldsOfJoin(es, fs);
    SampleUnion(a.fields, FieldsOf(es), b.fields, FieldsOf(fs), MAX_FIELDS);
    forall field
      ensures Kept(merged.values, field) <= ValuesOf(es + fs, field, compact)
      ensures |FieldsOf(es + fs)| <= MAX_FIELDS ==>
        Sample(Kept(merged.values, field), ValuesOf(es + fs, field, compact), MAX_VALUES_PER_FIELD)
    {
      MergeTellsValue(a, es, b, fs, field, compact);
    }
    assert forall e :: e in es + fs <==> e in es || e in fs;
  }

  lemma {:induction false} MergeTellsValue(a: Account, es: seq<Entry>, b: Account, fs: seq<Entry>, field: string,
                                           compact: Json -> Option<string>)
    requires Tells(a, es, compact) && Tells(b, fs, compact)
    ensures
      var merged := MergeInto(a, b.fields, b.values);
      && Kept(merged.values, field) <= ValuesOf(es + fs, field, compact)
      && (|FieldsOf(es + fs)| <= MAX_FIELDS ==>
            Sample(Kept(merged.values, field), ValuesOf(es + fs, field, compact), MAX_VALUES_PER_FIELD))
  {
    hide FoldIn, FieldsOf, ValuesOf, MergedValues, Sample, TellsPassword;
    var merged := MergeInto(a, b.fields, b.values);
    MergeKept(a, b, field);
    ValuesOfJoin(es, fs, field, compact);
    FoldWithin(Kept(a.values, field), Kept(b.values, field), MAX_VALUES_PER_FIELD);
    if |FieldsOf(es + fs)| <= MAX_FIELDS {
      FieldsOfJoin(es, fs);
      SubsetSize(FieldsOf(es), FieldsOf(es + fs));
      SubsetSize(FieldsOf(fs), FieldsOf(es + fs));
      SampleUnion(a.fields, FieldsOf(es), b.fields, FieldsOf(fs), MAX_FIELDS);
      SampleWhole(merged.fields, FieldsOf(es + fs), MAX_FIELDS);
      SampleWhole(b.fields, FieldsOf(fs), MAX_FIELDS);
      SampleUnion(Kept(a.values, field), ValuesOf(es, field, compact),
                  Kept(b.values, field), ValuesOf(fs, field, compact), MAX_VALUES_PER_FIELD);
      if field !in merged.fields {
        FoldNothing(Kept(a.values, field), MAX_VALUES_PER_FIELD);
        assert Kept(b.values, field) == {};
      }
    }
  }

  lemma {:induction false} EmptyTells(compact: Json -> Option<string>)
    ensures Tells(EMPTY, [], compact)
  {
    assert FieldsOf([]) == {};
    assert forall field :: ValuesOf([], field, compact) == {};
  }

  /**
   Whatever records are exposed, in whatever batches, and however their accounts are merged: the
   bounds hold; the fields are as many of those named as the bound allows; the password flag is
   exact; and each field's values are values its records gave, as many as the bound allows when
   no field was turned away.
   */
  lemma {:induction false} RunTells(run: Run, compact: Json -> Option<string>)
    ensures Tells(Eval(run, compact), Shown(run), compact)
    decreases run
  {
    hide Tells, ExposeAll, MergeInto, EMPTY;
    match run {
      case Start =>
        EmptyTells(compact);
      case Expose(earlier, named) =>
        RunTells(earlier, compact);
        ExposeAllTells(Eval(earlier, compact), Shown(earlier), named, compact);
      case Merge(into, from) =>
        RunTells(into, compact);
        RunTells(from, compact);
        MergeTells(Eval(into, compact), Shown(into), Eval(from, compact), Shown(from), compact);
    }
  }

  // Which values of a kept field are kept

  /**
   The entries that reach a field of the run's account: those shown to it, and to the accounts merged
   into it, that kept the field. An account that turned the field away passes none of them on.
   */
  ghost function Reaching(run: Run, field: string, compact: Json -> Option<string>): seq<Entry> {
    if field !in Eval(run, compact).fields then []
    else
      match run
      case Start => []
      case Expose(earlier, named) => Reaching(earlier, field, compact) + named
      case Merge(into, from) => Reaching(into, field, compact) + Reaching(from, field, compact)
  }

  /** A kept field has the values of `es` as the bound allows; a field not kept is new or turned away. */
  ghost predicate HoldsReaching(a: Account, es: seq<Entry>, field: string, compact: Json -> Option<string>) {
    if field in a.fields then Sample(Kept(a.values, field), ValuesOf(es, field, compact), 64)
    else Kept(a.values, field) == {} && (ValuesOf(es, field, compact) == {} || |a.fields| >= 64)
  }

  lemma SampleNothing(bound: nat)
    ensures Sample({}, {}, bound)
  {
  }

  lemma FieldStays(a: Account, e: Entry, compact: Json -> Option<string>)
    ensures a.fields <= ExposeOne(a, e, compact).fields
    ensures |a.fields| >= MAX_FIELDS ==> ExposeOne(a, e, compact).fields == a.fields
  {
    hide FieldName, Present, TextOf, Exposes;
  }

  lemma {:induction false} ExposeReaching(a: Account, es: seq<Entry>, e: Entry, field: string, compact: Json -> Option<string>)
    requires HoldsReaching(a, es, field, compact)
    ensures HoldsReaching(ExposeOne(a, e, compact), es + [e], field, compact)
  {
    hide ValuesOf, FieldName, Present, TextOf, Exposes, Sample, AddWithin;
    FieldStays(a, e, compact);
    ValuesOfJoin(es, [e], field, compact);
    ValuesOfOne(e, field, compact);
    SampleNothing(MAX_VALUES_PER_FIELD);
    assert ValuesOf(es, field, compact) + {} == ValuesOf(es, field, compact);
    if FieldOf(e) == Some(field) && (field in a.fields || |a.fields| < MAX_FIELDS) && TextOf(e, compact).Some? {
      SampleAdd(Kept(a.values, field), ValuesOf(es, field, compact), TextOf(e, compact).value, MAX_VALUES_PER_FIELD);
    }
  }

  lemma {:induction false} ExposeAllReaching(a: Account, es: seq<Entry>, named: seq<Entry>, field: string,
                                             compact: Json -> Option<string>)
    requires HoldsReaching(a, es, field, compact)
    ensures HoldsReaching(ExposeAll(a, named, compact), es + named, field, compact)
    decreases |named|
  {
    hide HoldsReaching, ExposeOne;
    if named == [] {
      assert es + named == es;
    } else {
      ExposeReaching(a, es, named[0], field, compact);
      ExposeAllReaching(ExposeOne(a, named[0], compact), es + [named[0]], named[1..], field, compact);
      assert es + [named[0]] + named[1..] == es + named;
    }
  }

  lemma {:induction false} FieldsStay(a: Account, named: seq<Entry>, compact: Json -> Option<string>)
    ensures a.fields <= ExposeAll(a, named, compact).fields
    ensures |a.fields| >= MAX_FIELDS ==> ExposeAll(a, named, compact).fields == a.fields
    decreases |named|
  {
    if named != [] {
      FieldStays(a, named[0], compact);
      hide ExposeOne;
      FieldsStay(ExposeOne(a, named[0], compact), named[1..], compact);
    }
  }

  lemma {:induction false} NothingReaching(a: Account, field: string, compact: Json -> Option<string>)
    requires Bounded(a) && field !in a.fields
    ensures HoldsReaching(a, [], field, compact) && Kept(a.values, field) == {} == ValuesOf([], field, compact)
  {
  }

  /** A kept field holds, as its bound allows, exactly the values that reach it: in every run. */
  lemma {:induction false} KeptReaching(run: Run, field: string, compact: Json -> Option<string>)
    ensures HoldsReaching(Eval(run, compact), Reaching(run, field, compact), field, compact)
    decreases run
  {
    hide HoldsReaching, Bounded, TellsFields, TellsValues, TellsPassword, ExposeAll, MergeInto, ValuesOf;
    var a := Eval(run, compact);
    RunTells(run, compact);
    if field !in a.fields {
      NothingReaching(a, field, compact);
    } else {
      match run {
        case Start =>
        case Expose(earlier, named) =>
          KeptReaching(earlier, field, compact);
          ExposeAllReaching(Eval(earlier, compact), Reaching(earlier, field, compact), named, field, compact);
        case Merge(into, from) =>
          KeptReaching(into, field, compact);
          KeptReaching(from, field, compact);
          MergeReaching(Eval(into, compact), Reaching(into, field, compact),
                        Eval(from, compact), Reaching(from, field, compact), field, compact);
      }
    }
  }

  /** Exposing never lets go of a field or a value. */
  lemma {:induction false} ValuesStay(a: Account, named: seq<Entry>, field: string, compact: Json -> Option<string>)
    ensures Kept(a.values, field) <= Kept(ExposeAll(a, named, compact).values, field)
    decreases |named|
  {
    if named != [] {
      ValueStays(a, named[0], field, compact);
      hide ExposeOne;
      ValuesStay(ExposeOne(a, named[0], compact), named[1..], field, compact);
    }
  }

  lemma ValueStays(a: Account, e: Entry, field: string, compact: Json -> Option<string>)
    ensures Kept(a.values, field) <= Kept(ExposeOne(a, e, compact).values, field)
  {
    hide FieldName, Present, TextOf, Exposes;
  }

  /** Neither does merging, and of what does not fit it takes the least. */
  lemma {:induction false} MergeStays(a: Account, b: Account, field: string)
    ensures
      var merged := MergeInto(a, b.fields, b.values);
      && a.fields <= merged.fields <= a.fields + b.fields
      && Kept(a.values, field) <= Kept(merged.values, field) <= Kept(a.values, field) + Kept(b.values, field)
      && (forall x, y | x in merged.fields - a.fields && y in b.fields - merged.fields :: Precedes(x, y))
      && (field in merged.fields ==>
            forall x, y | x in Kept(merged.values, field) - Kept(a.values, field)
                          && y in Kept(b.values, field) - Kept(merged.values, field) :: Precedes(x, y))
  {
    hide FoldIn, MergedValues, Kept, Precedes;
    var merged := MergeInto(a, b.fields, b.values);
    MergeKept(a, b, field);
    FoldWithin(a.fields, b.fields, MAX_FIELDS);
    FoldWithin(Kept(a.values, field), Kept(b.values, field), MAX_VALUES_PER_FIELD);
    forall x, y | x in merged.fields - a.fields && y in b.fields - merged.fields
      ensures Precedes(x, y)
    {
      FoldLeast(a.fields, b.fields, MAX_FIELDS, x, y);
    }
    if field in merged.fields {
      forall x, y | x in Kept(merged.values, field) - Kept(a.values, field)
                    && y in Kept(b.values, field) - Kept(merged.values, field)
        ensures Precedes(x, y)
      {
        FoldLeast(Kept(a.values, field), Kept(b.values, field), MAX_VALUES_PER_FIELD, x, y);
      }
    }
  }

  /** An account that has no values of a field, of entries that give none, is sampled too. */
  lemma {:induction false} ReachingSample(a: Account, es: seq<Entry>, field: string, compact: Json -> Option<string>)
    requires HoldsReaching(a, es, field, compact) && (field in a.fields || es == [])
    ensures Sample(Kept(a.values, field), ValuesOf(es, field, compact), MAX_VALUES_PER_FIELD)
  {
    hide FieldOf, TextOf;
  }

  lemma {:induction false} MergeReaching(a: Account, es: seq<Entry>, b: Account, fs: seq<Entry>, field: string,
                                         compact: Json -> Option<string>)
    requires HoldsReaching(a, es, field, compact) && (field in a.fields || es == [])
    requires HoldsReaching(b, fs, field, compact) && (field in b.fields || fs == [])
    requires field in MergeInto(a, b.fields, b.values).fields
    ensures HoldsReaching(MergeInto(a, b.fields, b.values).(exposed := a.exposed || b.exposed), es + fs, field, compact)
  {
    ReachingSample(a, es, field, compact);
    ReachingSample(b, fs, field, compact);
    hide FoldIn, ValuesOf, MergedValues, Kept, Sample;
    MergeKept(a, b, field);
    ValuesOfJoin(es, fs, field, compact);
    SampleUnion(Kept(a.values, field), ValuesOf(es, field, compact),
                Kept(b.values, field), ValuesOf(fs, field, compact), MAX_VALUES_PER_FIELD);
  }

  /** No account merged in was shown more fields than it could keep. */
  ghost predicate Roomy(run: Run) {
    match run
    case Start => true
    case Expose(earlier, _) => Roomy(earlier)
    case Merge(into, from) => Roomy(into) && |FieldsOf(Shown(from))| <= 64
  }

  /** Every kept field has as many of its values as the bound allows. */
  ghost predicate KeptFull(a: Account, es: seq<Entry>, compact: Json -> Option<string>) {
    forall field | field in a.fields ::
      Sample(Kept(a.values, field), ValuesOf(es, field, compact), 64)
  }

  /** A field that finds room late has been named by nothing before. */
  lemma {:induction false} NewField(a: Account, es: seq<Entry>, field: string, compact: Json -> Option<string>)
    requires Bounded(a) && TellsFields(a, es) && |a.fields| < MAX_FIELDS && field !in a.fields
    ensures Kept(a.values, field) == {} == ValuesOf(es, field, compact)
  {
    hide FieldOf, TextOf;
    SampleWhole(a.fields, FieldsOf(es), MAX_FIELDS);
  }

  lemma {:induction false} FullReaching(a: Account, es: seq<Entry>, field: string, compact: Json -> Option<string>)
    requires Bounded(a) && TellsFields(a, es) && KeptFull(a, es, compact)
    requires field in a.fields || |a.fields| < MAX_FIELDS
    ensures Sample(Kept(a.values, field), ValuesOf(es, field, compact), MAX_VALUES_PER_FIELD)
    ensures HoldsReaching(a, es, field, compact)
  {
    hide ValuesOf;
    if field !in a.fields {
      NewField(a, es, field, compact);
    }
  }

  lemma {:induction false} MergeKeptFull(a: Account, es: seq<Entry>, b: Account, fs: seq<Entry>, compact: Json -> Option<string>)
    requires Bounded(a) && TellsFields(a, es) && KeptFull(a, es, compact)
    requires TellsValues(b, fs, compact) && |FieldsOf(fs)| <= MAX_FIELDS
    ensures KeptFull(MergeInto(a, b.fields, b.values).(exposed := a.exposed || b.exposed), es + fs, compact)
  {
    hide FieldsOf, ValuesOf, MergedValues, Kept, Sample, Bounded, FoldIn, TellsFields;
    var merged := MergeInto(a, b.fields, b.values);
    forall field | field in merged.fields
      ensures Sample(Kept(merged.values, field), ValuesOf(es + fs, field, compact), MAX_VALUES_PER_FIELD)
    {
      if |a.fields| >= MAX_FIELDS {
        FoldFull(a.fields, b.fields, MAX_FIELDS);
      }
      FullReaching(a, es, field, compact);
      MergeKept(a, b, field);
      ValuesOfJoin(es, fs, field, compact);
      SampleUnion(Kept(a.values, field), ValuesOf(es, field, compact),
                  Kept(b.values, field), ValuesOf(fs, field, compact), MAX_VALUES_PER_FIELD);
    }
  }

  lemma {:induction false} ExposeKeptFull(a: Account, es: seq<Entry>, named: seq<Entry>, compact: Json -> Option<string>)
    requires Bounded(a) && TellsFields(a, es) && KeptFull(a, es, compact)
    ensures KeptFull(ExposeAll(a, named, compact), es + named, compact)
  {
    hide ValuesOf, Kept, Sample, Bounded, TellsFields, ExposeAll;
    FieldsStay(a, named, compact);
    var after := ExposeAll(a, named, compact);
    forall field | field in after.fields
      ensures Sample(Kept(after.values, field), ValuesOf(es + named, field, compact), MAX_VALUES_PER_FIELD)
    {
      FullReaching(a, es, field, compact);
      ExposeAllReaching(a, es, named, field, compact);
    }
  }

  /**
   When no account merged in was shown more fields than it could keep, a kept field has lost no value
   but to its own bound, however many fields the whole run turned away.
   */
  lemma {:induction false} RunKeptFull(run: Run, compact: Json -> Option<string>)
    requires Roomy(run)
    ensures KeptFull(Eval(run, compact), Shown(run), compact)
    decreases run
  {
    hide KeptFull, ExposeAll, MergeInto, Bounded, TellsFields, TellsValues, TellsPassword;
    match run {
      case Start =>
        NoneKept(compact);
      case Expose(earlier, named) =>
        RunTells(earlier, compact);
        RunKeptFull(earlier, compact);
        ExposeKeptFull(Eval(earlier, compact), Shown(earlier), named, compact);
      case Merge(into, from) =>
        RunTells(into, compact);
        RunTells(from, compact);
        RunKeptFull(into, compact);
        MergeKeptFull(Eval(into, compact), Shown(into), Eval(from, compact), Shown(from), compact);
    }
  }

  lemma NoneKept(compact: Json -> Option<string>)
    ensures KeptFull(EMPTY, [], compact)
  {
  }

  /** The entries fit the bounds. */
  ghost predicate Fits(es: seq<Entry>, compact: Json -> Option<string>) {
    && |FieldsOf(es)| <= 64
    && forall field :: |ValuesOf(es, field, compact)| <= 64
  }

  /** While the bounds are not reached, an account is exactly the union of what its records gave. */
  lemma {:induction false} NothingLost(run: Run, compact: Json -> Option<string>)
    requires Fits(Shown(run), compact)
    ensures
      var a := Eval(run, compact);
      && a.fields == FieldsOf(Shown(run))
      && forall field ::
           && Kept(a.values, field) == ValuesOf(Shown(run), field, compact)
           && (field in a.values <==> ValuesOf(Shown(run), field, compact) != {})
  {
    hide FieldsOf, ValuesOf, Eval, Shown, Sample;
    RunTells(run, compact);
    var a := Eval(run, compact);
    SampleWhole(a.fields, FieldsOf(Shown(run)), MAX_FIELDS);
    forall field
      ensures Kept(a.values, field) == ValuesOf(Shown(run), field, compact)
    {
      SampleWhole(Kept(a.values, field), ValuesOf(Shown(run), field, compact), MAX_VALUES_PER_FIELD);
    }
  }

  /**
   Two runs over the same entries, in any order, grouping and repetition, agree on whether a password
   was exposed; and on everything when the entries fit the bounds.
   */
  lemma {:induction false} RunsAgree(run: Run, other: Run, compact: Json -> Option<string>)
    requires forall e :: e in Shown(run) <==> e in Shown(other)
    ensures Eval(run, compact).exposed == Eval(other, compact).exposed
    ensures Fits(Shown(run), compact) ==> Eval(run, compact) == Eval(other, compact)
  {
    hide Eval, Shown, ShowsPassword, FieldOf, TextOf, Fits;
    var a, b := Eval(run, compact), Eval(other, compact);
    RunTells(run, compact);
    RunTells(other, compact);
    SameGiven(Shown(run), Shown(other), compact);
    if Fits(Shown(run), compact) {
      NothingLost(run, compact);
      NothingLost(other, compact);
      SameValues(a.values, b.values);
    }
  }

  lemma {:induction false} SameGiven(es: seq<Entry>, fs: seq<Entry>, compact: Json -> Option<string>)
    requires forall e :: e in es <==> e in fs
    ensures FieldsOf(es) == FieldsOf(fs)
    ensures forall field :: ValuesOf(es, field, compact) == ValuesOf(fs, field, compact)
    ensures Fits(es, compact) <==> Fits(fs, compact)
  {
    hide FieldOf, TextOf;
  }

  lemma {:induction false} SameValues(v: map<string, set<string>>, w: map<string, set<string>>)
    requires forall field :: Kept(v, field) == Kept(w, field) && (field in v <==> field in w)
    ensures v == w
  {
    forall field | field in v
      ensures v[field] == w[field]
    {
      assert Kept(v, field) == Kept(w, field);
    }
  }

  /**
   Every value an account keeps is at most 1024 bytes, stands under a kept field whose name is no
   credential, and is the text of a value that one of its records gave under that name and that has
   no credential key anywhere inside it.
   */
  lemma {:induction false} KeptIsSafe(run: Run, field: string, text: string, compact: Json -> Option<string>)
    returns (entry: Entry)
    requires text in Kept(Eval(run, compact).values, field)
    ensures field in Eval(run, compact).fields && !IsCredential(field)
    ensures text != "" && ByteLength(text) <= MAX_VALUE_BYTES
    ensures entry in Shown(run) && FieldName(entry.key) == Some(field) && !IsCredential(entry.key)
    ensures RecordValue(entry.value, compact) == Some(text)
    ensures forall path, k :: !Found(entry.value, path, k, IsCredential, Every)
  {
    hide IsCredential, HoldsCredential, RecordValue, FieldName, Eval, Shown, Found, Present, Exposes;
    RunTells(run, compact);
    assert text in ValuesOf(Shown(run), field, compact);
    entry :| entry in Shown(run) && FieldOf(entry) == Some(field) && TextOf(entry, compact) == Some(text);
    CredentialByFieldName(entry.key);
    HoldsExact(entry.value, IsCredential, Every);
  }
}
