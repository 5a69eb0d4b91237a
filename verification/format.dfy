/** A format declaration, its split into runtime and static entries
    (`field_filter`), and the two-cursor merge `for_each_field` that rebuilds
    the full field sequence from the declaration and the supplied values. */
module Format {
  import opened Fields

  /** Number of runtime entries in `decl`. */
  function CountRuntime(decl: seq<Kind>): (n: nat)
    ensures n <= |decl|
  {
    if decl == [] then 0 else (if IsRuntime(decl[0]) then 1 else 0) + CountRuntime(decl[1..])
  }

  /** `field_filter<...>::type`: the entries deriving from `runtime_field`. */
  function RuntimeFields(decl: seq<Kind>): (r: seq<Kind>)
    ensures |r| == CountRuntime(decl)
    ensures forall k :: 0 <= k < |r| ==> IsRuntime(r[k])
  {
    if decl == [] then []
    else if IsRuntime(decl[0]) then [decl[0]] + RuntimeFields(decl[1..])
    else RuntimeFields(decl[1..])
  }

  /** `field_filter<First, Rest...>::nontype` AS WRITTEN: the head is kept when it
      is static, but the tail is filtered with `::type`, i.e. for RUNTIME entries. */
  function StaticFieldsAsWritten(decl: seq<Kind>): (r: seq<Kind>)
    requires |decl| >= 1
    ensures |r| == (if IsRuntime(decl[0]) then 0 else 1) + CountRuntime(decl[1..])
  {
    if !IsRuntime(decl[0]) then [decl[0]] + RuntimeFields(decl[1..])
    else RuntimeFields(decl[1..])
  }

  /** The static subsequence the `nontype` alias was meant to name. */
  function StaticFields(decl: seq<Kind>): (r: seq<Kind>)
    ensures |r| == |decl| - CountRuntime(decl)
    ensures forall k :: 0 <= k < |r| ==> !IsRuntime(r[k])
  {
    if decl == [] then []
    else if !IsRuntime(decl[0]) then [decl[0]] + StaticFields(decl[1..])
    else StaticFields(decl[1..])
  }

  /** The order-preserving zip over a static subsequence and the values: walk
      `decl`, taking the next element of `dynamics` at a runtime position and the
      next of `statics` otherwise. */
  function Interleave<T>(decl: seq<Kind>, statics: seq<T>, dynamics: seq<T>): (r: seq<T>)
    requires CountRuntime(decl) <= |dynamics|
    requires |decl| - CountRuntime(decl) <= |statics|
    ensures |r| == |decl|
  {
    if decl == [] then []
    else if IsRuntime(decl[0]) then [dynamics[0]] + Interleave(decl[1..], statics, dynamics[1..])
    else [statics[0]] + Interleave(decl[1..], statics[1..], dynamics)
  }

  /** The make_tuple conversion into `runtime_fields_t` compiles: one value per
      runtime entry, in order, each of that entry's kind. */
  predicate Conforms(decl: seq<Kind>, values: seq<Field>): (b: bool)
    ensures b ==> |values| == CountRuntime(decl)
    ensures b ==> forall j :: 0 <= j < |values| ==> IsRuntime(KindOf(values[j]))
  {
    var rt := RuntimeFields(decl);
    |values| == |rt| && forall j :: 0 <= j < |values| ==> KindOf(values[j]) == rt[j]
  }

  /** `for_each_field<I, J>`: the fields handed to the callback, in call order,
      from declared position `i` on, with `j` runtime values already consumed.
      A static position yields the default-constructed declared field at `i`;
      a runtime position yields supplied value `j`. Ends when `i` reaches the
      end of the declaration. */
  function ForEachField(decl: seq<Kind>, values: seq<Field>, i: nat, j: nat): (out: seq<Field>)
    requires i <= |decl|
    requires j + CountRuntime(decl[i..]) <= |values|
    ensures |out| == |decl| - i
    decreases |decl| - i
  {
    if i >= |decl| then []
    else
      assert decl[i..][1..] == decl[i + 1..];
      if IsRuntime(decl[i]) then [values[j]] + ForEachField(decl, values, i + 1, j + 1)
      else [Default(decl[i])] + ForEachField(decl, values, i + 1, j)
  }

  /** The whole merge, as `log::add` runs it: `for_each_field<0, 0>`. */
  function Merge(decl: seq<Kind>, values: seq<Field>): (out: seq<Field>)
    requires Conforms(decl, values)
    ensures |out| == |decl|
  {
    assert decl[0..] == decl;
    ForEachField(decl, values, 0, 0)
  }

  /** The text of the declared part of a line. */
  function FormatLine(decl: seq<Kind>, values: seq<Field>): string
    requires Conforms(decl, values)
  {
    RenderAll(Merge(decl, values))
  }

  // ----- field_filter -----

  /** Counting runtime entries of a prefix adds the entry at its end. */
  lemma {:induction false} CountRuntimeSnoc(decl: seq<Kind>, k: nat)
    requires k < |decl|
    ensures CountRuntime(decl[..k + 1]) == CountRuntime(decl[..k]) + (if IsRuntime(decl[k]) then 1 else 0)
  {
    if k > 0 {
      assert decl[..k + 1][1..] == decl[1..][..k];
      assert decl[..k][1..] == decl[1..][..k - 1];
      CountRuntimeSnoc(decl[1..], k - 1);
    }
  }

  /** `field_filter<...>::type` keeps exactly the runtime entries, in their
      declared order: runtime position `k` becomes entry number
      `CountRuntime(decl[..k])` (the runtime entries before it). */
  lemma {:induction false} RuntimeFieldsPosition(decl: seq<Kind>, k: nat)
    requires k < |decl| && IsRuntime(decl[k])
    ensures CountRuntime(decl[..k]) < |RuntimeFields(decl)|
    ensures RuntimeFields(decl)[CountRuntime(decl[..k])] == decl[k]
  {
    if k > 0 {
      assert decl[..k][1..] == decl[1..][..k - 1];
      RuntimeFieldsPosition(decl[1..], k - 1);
    }
  }

  /** Distinct runtime positions map to distinct entries of `field_filter::type`,
      and an earlier position to an earlier entry. */
  lemma {:induction false} RuntimePositionsIncrease(decl: seq<Kind>, k1: nat, k2: nat)
    requires k1 < k2 < |decl| && IsRuntime(decl[k1])
    ensures CountRuntime(decl[..k1]) < CountRuntime(decl[..k2])
    decreases k2 - k1
  {
    CountRuntimeSnoc(decl, k2 - 1);
    if k1 < k2 - 1 {
      RuntimePositionsIncrease(decl, k1, k2 - 1);
    }
  }

  /** The corrected static view keeps exactly the static entries, in order. */
  lemma {:induction false} StaticFieldsPosition(decl: seq<Kind>, k: nat)
    requires k < |decl| && !IsRuntime(decl[k])
    ensures k - CountRuntime(decl[..k]) < |StaticFields(decl)|
    ensures StaticFields(decl)[k - CountRuntime(decl[..k])] == decl[k]
  {
    if k > 0 {
      assert decl[..k][1..] == decl[1..][..k - 1];
      StaticFieldsPosition(decl[1..], k - 1);
    }
  }

  /** Putting the static and the runtime entries back in their declared
      positions reconstructs the declaration exactly. */
  lemma {:induction false} PartitionReconstructs(decl: seq<Kind>)
    ensures Interleave(decl, StaticFields(decl), RuntimeFields(decl)) == decl
  {
    if decl != [] {
      PartitionReconstructs(decl[1..]);
    }
  }

  // ----- the nontype defect -----

  /** The as-written `nontype` of `[literal "INFO", separator ' ', text<>]` holds
      the runtime `text<>` and drops the separator, so interleaving it with the
      runtime entries does not give the declaration back. */
  lemma StaticFieldsAsWrittenCounterexample()
    ensures var decl := [LiteralText("INFO"), Separator(' '), RuntimeText];
      && StaticFieldsAsWritten(decl) == [LiteralText("INFO"), RuntimeText]
      && StaticFields(decl) == [LiteralText("INFO"), Separator(' ')]
      && Interleave(decl, StaticFieldsAsWritten(decl), RuntimeFields(decl)) != decl
  {
    var decl := [LiteralText("INFO"), Separator(' '), RuntimeText];
    assert decl[1..] == [Separator(' '), RuntimeText];
    assert decl[1..][1..] == [RuntimeText];
    var st := StaticFieldsAsWritten(decl);
    var rt := RuntimeFields(decl);
    assert rt == [RuntimeText];
    var r := Interleave(decl, st, rt);
    assert r == [st[0]] + Interleave(decl[1..], st[1..], rt);
    assert Interleave(decl[1..], st[1..], rt) == [st[1]] + Interleave(decl[1..][1..], st[2..], rt);
    assert r[1] == RuntimeText;
  }

  /** In general: as soon as a runtime entry follows the first one, the
      as-written `nontype` contains a runtime entry. */
  lemma StaticFieldsAsWrittenHoldsRuntime(decl: seq<Kind>, k: nat)
    requires 1 <= k < |decl| && IsRuntime(decl[k])
    ensures exists m :: 0 <= m < |StaticFieldsAsWritten(decl)| && IsRuntime(StaticFieldsAsWritten(decl)[m])
  {
    RuntimeFieldsPosition(decl[1..], k - 1);
    var c := CountRuntime(decl[1..][..k - 1]);
    var m := if IsRuntime(decl[0]) then c else c + 1;
    assert IsRuntime(StaticFieldsAsWritten(decl)[m]);
  }

  // ----- for_each_field -----

  /** Merge position correspondence: declared position `k` yields supplied value
      number `CountRuntime(decl[..k])` when it is a runtime entry and the
      declaration's own field otherwise; every field has the declared kind. */
  lemma MergePosition(decl: seq<Kind>, values: seq<Field>, k: nat)
    requires Conforms(decl, values)
    requires k < |decl|
    ensures IsRuntime(decl[k]) ==> CountRuntime(decl[..k]) < |values| && Merge(decl, values)[k] == values[CountRuntime(decl[..k])]
    ensures !IsRuntime(decl[k]) ==> Merge(decl, values)[k] == Default(decl[k])
    ensures KindOf(Merge(decl, values)[k]) == decl[k]
  {
    assert decl[0..k] == decl[..k];
    assert decl[0..] == decl;
    ForEachFieldPosition(decl, values, 0, 0, k);
    if IsRuntime(decl[k]) {
      RuntimeFieldsPosition(decl, k);
    }
  }

  predicate IsRuntimeField(f: Field)
  {
    IsRuntime(KindOf(f))
  }

  /** The runtime fields of a sequence, in order. */
  function RuntimeOf(fs: seq<Field>): seq<Field>
  {
    if fs == [] then [] else (if IsRuntimeField(fs[0]) then [fs[0]] else []) + RuntimeOf(fs[1..])
  }

  /** The static fields of a sequence, in order. */
  function StaticOf(fs: seq<Field>): seq<Field>
  {
    if fs == [] then [] else (if IsRuntimeField(fs[0]) then [] else [fs[0]]) + StaticOf(fs[1..])
  }

  /** Default construction, entry by entry. */
  function Defaults(kinds: seq<Kind>): (r: seq<Field>)
    ensures |r| == |kinds|
    ensures forall k :: 0 <= k < |r| ==> r[k] == Default(kinds[k])
  {
    if kinds == [] then [] else [Default(kinds[0])] + Defaults(kinds[1..])
  }

  /** One step of the merge: the field at position `i`, then the rest. */
  lemma ForEachFieldCons(decl: seq<Kind>, values: seq<Field>, i: nat, j: nat)
    requires i < |decl|
    requires j + CountRuntime(decl[i..]) <= |values|
    ensures IsRuntime(decl[i]) ==> (
      && j < |values| && j + 1 + CountRuntime(decl[i + 1..]) <= |values|
      && ForEachField(decl, values, i, j) == [values[j]] + ForEachField(decl, values, i + 1, j + 1))
    ensures !IsRuntime(decl[i]) ==> (
      && j + CountRuntime(decl[i + 1..]) <= |values|
      && ForEachField(decl, values, i, j) == [Default(decl[i])] + ForEachField(decl, values, i + 1, j))
  {
    assert decl[i..][1..] == decl[i + 1..];
  }

  /** Position correspondence from cursor `(i, j)` on: declared position `k`
      yields supplied value `j + (runtime entries in decl[i..k])` when it is a
      runtime entry, and the declaration's own field otherwise. */
  lemma {:induction false} ForEachFieldPosition(decl: seq<Kind>, values: seq<Field>, i: nat, j: nat, k: nat)
    requires i <= k < |decl|
    requires j + CountRuntime(decl[i..]) <= |values|
    ensures IsRuntime(decl[k]) ==> (
      && j + CountRuntime(decl[i..k]) < |values|
      && ForEachField(decl, values, i, j)[k - i] == values[j + CountRuntime(decl[i..k])])
    ensures !IsRuntime(decl[k]) ==> ForEachField(decl, values, i, j)[k - i] == Default(decl[k])
    decreases k - i
  {
    ForEachFieldCons(decl, values, i, j);
    if k > i {
      assert decl[i..k][1..] == decl[i + 1..k];
      ForEachFieldPosition(decl, values, i + 1, if IsRuntime(decl[i]) then j + 1 else j, k);
    }
  }

  lemma {:induction false} ForEachFieldRuntimeOf(decl: seq<Kind>, values: seq<Field>, i: nat, j: nat)
    requires i <= |decl|
    requires j + CountRuntime(decl[i..]) <= |values|
    requires forall m :: j <= m < |values| ==> IsRuntimeField(values[m])
    ensures RuntimeOf(ForEachField(decl, values, i, j)) == values[j..j + CountRuntime(decl[i..])]
    decreases |decl| - i
  {
    if i == |decl| {
      assert ForEachField(decl, values, i, j) == [];
    } else {
      ForEachFieldCons(decl, values, i, j);
      assert decl[i..][1..] == decl[i + 1..];
      var out := ForEachField(decl, values, i, j);
      if IsRuntime(decl[i]) {
        ForEachFieldRuntimeOf(decl, values, i + 1, j + 1);
        assert out[1..] == ForEachField(decl, values, i + 1, j + 1);
        assert RuntimeOf(out) == [values[j]] + RuntimeOf(out[1..]);
        assert values[j..j + CountRuntime(decl[i..])] == [values[j]] + values[j + 1..j + 1 + CountRuntime(decl[i + 1..])];
      } else {
        ForEachFieldRuntimeOf(decl, values, i + 1, j);
        assert out[1..] == ForEachField(decl, values, i + 1, j);
        assert RuntimeOf(out) == RuntimeOf(out[1..]);
      }
    }
  }

  lemma {:induction false} ForEachFieldStaticOf(decl: seq<Kind>, values: seq<Field>, i: nat, j: nat)
    requires i <= |decl|
    requires j + CountRuntime(decl[i..]) <= |values|
    requires forall m :: j <= m < |values| ==> IsRuntimeField(values[m])
    ensures StaticOf(ForEachField(decl, values, i, j)) == Defaults(StaticFields(decl[i..]))
    decreases |decl| - i
  {
    if i == |decl| {
      assert ForEachField(decl, values, i, j) == [];
    } else {
      ForEachFieldCons(decl, values, i, j);
      assert decl[i..][1..] == decl[i + 1..];
      var out := ForEachField(decl, values, i, j);
      if IsRuntime(decl[i]) {
        ForEachFieldStaticOf(decl, values, i + 1, j + 1);
        assert out[1..] == ForEachField(decl, values, i + 1, j + 1);
        assert StaticOf(out) == StaticOf(out[1..]);
      } else {
        ForEachFieldStaticOf(decl, values, i + 1, j);
        assert out[1..] == ForEachField(decl, values, i + 1, j);
        assert StaticOf(out) == [Default(decl[i])] + StaticOf(out[1..]);
      }
    }
  }

  /** Every supplied value is used exactly once and in order, and the static
      positions are exactly the declaration's static entries, in order. */
  lemma MergeUsesEachValueOnce(decl: seq<Kind>, values: seq<Field>)
    requires Conforms(decl, values)
    ensures RuntimeOf(Merge(decl, values)) == values
    ensures StaticOf(Merge(decl, values)) == Defaults(StaticFields(decl))
  {
    assert decl[0..] == decl;
    var rt := RuntimeFields(decl);
    assert forall m :: 0 <= m < |values| ==> IsRuntimeField(values[m]) by {
      forall m | 0 <= m < |values| ensures IsRuntimeField(values[m]) {
        assert KindOf(values[m]) == rt[m];
      }
    }
    ForEachFieldRuntimeOf(decl, values, 0, 0);
    ForEachFieldStaticOf(decl, values, 0, 0);
    assert values[0..|values|] == values;
  }

  lemma {:induction false} ForEachFieldIsInterleave(decl: seq<Kind>, values: seq<Field>, i: nat, j: nat)
    requires i <= |decl|
    requires j + CountRuntime(decl[i..]) <= |values|
    ensures ForEachField(decl, values, i, j) == Interleave(decl[i..], Defaults(StaticFields(decl[i..])), values[j..])
    decreases |decl| - i
  {
    if i < |decl| {
      assert decl[i..][1..] == decl[i + 1..];
      if IsRuntime(decl[i]) {
        assert values[j..][1..] == values[j + 1..];
        ForEachFieldIsInterleave(decl, values, i + 1, j + 1);
      } else {
        ForEachFieldIsInterleave(decl, values, i + 1, j);
        assert Defaults(StaticFields(decl[i..]))[1..] == Defaults(StaticFields(decl[i + 1..]));
      }
    }
  }

  /** The code's merge (index I into the whole declaration, J into the values)
      agrees with the order-preserving zip over the static subsequence and
      the supplied values. */
  lemma MergeIsInterleave(decl: seq<Kind>, values: seq<Field>)
    requires Conforms(decl, values)
    ensures Merge(decl, values) == Interleave(decl, Defaults(StaticFields(decl)), values)
  {
    assert decl[0..] == decl;
    assert values[0..] == values;
    ForEachFieldIsInterleave(decl, values, 0, 0);
  }

  /** The declared part of a line is the rendering of the first field followed by
      that of the rest. */
  lemma FormatLineSplits(decl: seq<Kind>, values: seq<Field>, k: nat)
    requires Conforms(decl, values)
    requires k <= |decl|
    ensures FormatLine(decl, values) == RenderAll(Merge(decl, values)[..k]) + RenderAll(Merge(decl, values)[k..])
  {
    var out := Merge(decl, values);
    assert out == out[..k] + out[k..];
    RenderAllAppend(out[..k], out[k..]);
  }

  /** Worked line: `[literal "INFO", separator ' ', text<>]` with "hello". */
  lemma InfoHelloExample()
    ensures Conforms([LiteralText("INFO"), Separator(' '), RuntimeText], [TextField("hello")])
    ensures FormatLine([LiteralText("INFO"), Separator(' '), RuntimeText], [TextField("hello")]) == "INFO hello"
  {
    var d := [LiteralText("INFO"), Separator(' '), RuntimeText];
    var v := [TextField("hello")];
    assert d[1..] == [Separator(' '), RuntimeText];
    assert d[1..][1..] == [RuntimeText];
    assert RuntimeFields(d) == [RuntimeText];
    var m := Merge(d, v);
    MergePosition(d, v, 0);
    MergePosition(d, v, 1);
    MergePosition(d, v, 2);
    assert d[..2] == [LiteralText("INFO"), Separator(' ')];
    assert d[..2][1..] == [Separator(' ')];
    assert m == [LiteralField("INFO"), SeparatorField(' '), TextField("hello")];
    CStringNoNul("INFO");
    CStringNoNul("hello");
    assert RenderAll(m) == "INFO" + RenderAll(m[1..]);
    assert m[1..] == [SeparatorField(' '), TextField("hello")];
    assert m[1..][1..] == [TextField("hello")];
    assert m[1..][1..][1..] == [];
  }

  /** Worked line: `[number, separator ':', number]` with 42 and 7. */
  lemma NumbersExample()
    ensures Conforms([Number, Separator(':'), Number], [NumberField(42), NumberField(7)])
    ensures FormatLine([Number, Separator(':'), Number], [NumberField(42), NumberField(7)]) == "42:7"
  {
    var d := [Number, Separator(':'), Number];
    var v := [NumberField(42), NumberField(7)];
    assert d[1..] == [Separator(':'), Number];
    assert d[1..][1..] == [Number];
    assert RuntimeFields(d) == [Number, Number];
    var m := Merge(d, v);
    MergePosition(d, v, 0);
    MergePosition(d, v, 1);
    MergePosition(d, v, 2);
    assert d[..2] == [Number, Separator(':')];
    assert d[..2][1..] == [Separator(':')];
    assert m == [NumberField(42), SeparatorField(':'), NumberField(7)];
    assert ToDecimal(42) == "42" by {
      assert NatDigits(4) == "4";
    }
    assert ToDecimal(7) == "7";
    assert m[1..] == [SeparatorField(':'), NumberField(7)];
    assert m[1..][1..] == [NumberField(7)];
    assert m[1..][1..][1..] == [];
  }

  /** Worked line: `[literal "START"]` takes no values and renders "START". */
  lemma StartExample()
    ensures Conforms([LiteralText("START")], [])
    ensures FormatLine([LiteralText("START")], []) == "START"
  {
    var d := [LiteralText("START")];
    MergePosition(d, [], 0);
    assert Merge(d, []) == [LiteralField("START")];
    assert Merge(d, [])[1..] == [];
    CStringNoNul("START");
    assert Render(LiteralField("START")) == "START";
  }
}
