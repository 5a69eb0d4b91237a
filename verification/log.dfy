/** The log: builds lines from the scoped fields and a format, keeps them in
    order, and dumps them one per line. */
module Logging {
  import opened Fields
  import opened Format
  import opened Scoped

  /** What dumping `ls` writes: each line followed by '\n', in order. */
  function Dump(ls: seq<string>): (r: string)
    ensures |r| >= |ls|
    ensures r == "" <==> ls == []
    ensures ls != [] ==> r[|r| - 1] == '\n'
  {
    if ls == [] then "" else ls[0] + "\n" + Dump(ls[1..])
  }

  /** Dumping a concatenation dumps the first part, then the second. */
  lemma {:induction false} DumpAppend(a: seq<string>, b: seq<string>)
    ensures Dump(a + b) == Dump(a) + Dump(b)
  {
    if a == [] {
      assert a + b == b;
    } else {
      assert (a + b)[1..] == a[1..] + b;
      DumpAppend(a[1..], b);
    }
  }

  /** Dumping one more line writes it and its '\n' after the rest. */
  lemma DumpSnoc(ls: seq<string>, ln: string)
    ensures Dump(ls + [ln]) == Dump(ls) + ln + "\n"
  {
    DumpAppend(ls, [ln]);
    assert [ln][1..] == [];
    assert Dump([ln]) == ln + "\n" + Dump([]);
  }

  /** The '\n'-terminated records of `s` (a last record may lack its '\n'). */
  function Records(s: string): seq<string>
    decreases |s|
  {
    if s == [] then []
    else
      var n := FirstOf(s, '\n');
      if n == |s| then [s] else [s[..n]] + Records(s[n + 1..])
  }

  predicate NoNewline(ln: string)
  {
    forall k :: 0 <= k < |ln| ==> ln[k] != '\n'
  }

  /** When no line holds a '\n' itself, the dump has exactly one record per
      buffered line, in append order, none dropped, duplicated or reordered. */
  lemma {:induction false} DumpRecords(ls: seq<string>)
    requires forall k :: 0 <= k < |ls| ==> NoNewline(ls[k])
    ensures Records(Dump(ls)) == ls
  {
    if ls != [] {
      var s := Dump(ls);
      var first := ls[0];
      var rest := Dump(ls[1..]);
      assert s == first + "\n" + rest;
      assert s[|first|] == '\n';
      var n := FirstOf(s, '\n');
      assert n == |first|;
      assert s[..n] == first;
      assert s[n + 1..] == rest;
      DumpRecords(ls[1..]);
      assert ls == [first] + ls[1..];
    }
  }

  /** The loop at the head of `add`: renders every registered scoped field
      once, in registry order, and returns what they wrote. */
  method RenderScoped(registry: Registry) returns (prefix: string)
    requires registry.Valid()
    modifies registry.fields
    ensures registry.Valid()
    ensures prefix == old(PrefixText(registry.fields))
    ensures forall f :: f in registry.fields ==>
      f.i == old(f.i) + f.Step() && f.renders == old(f.renders) + 1
  {
    var fs := registry.fields;
    ghost var texts := Texts(fs);
    ghost var done: seq<string> := [];
    prefix := "";
    var k := 0;
    while k < |fs|
      invariant 0 <= k <= |fs|
      invariant |done| == k && prefix == Concat(done)
      invariant forall m :: 0 <= m < k ==> done[m] == texts[m]
      invariant forall m :: 0 <= m < |fs| ==> fs[m].Valid()
      invariant forall m :: 0 <= m < |fs| ==>
        && fs[m].i == old(fs[m].i) + (if m < k then fs[m].Step() else 0)
        && fs[m].renders == old(fs[m].renders) + (if m < k then 1 else 0)
    {
      var t := fs[k].Render();
      assert t == texts[k];
      ConcatSnoc(done, t);
      prefix := prefix + t;
      done := done + [t];
      k := k + 1;
    }
    assert done == texts;
  }

  /** `logsaw::log`: the lines built so far, in the order they were added. */
  class Log {
    var lines: seq<string>

    constructor ()
      ensures lines == []
    {
      lines := [];
    }

    /** `add<Format>(values...)`: renders every registered scoped field in
        registry order (advancing the `scoped_index` counters), then the merged
        declaration, appends the line to the buffer and returns it. */
    method Add(registry: Registry, decl: seq<Kind>, values: seq<Field>) returns (ln: string)
      requires registry.Valid()
      requires |decl| >= 1 && Conforms(decl, values)
      modifies this, registry.fields
      ensures registry.Valid() && registry.fields == old(registry.fields)
      ensures ln == old(PrefixText(registry.fields)) + FormatLine(decl, values)
      ensures lines == old(lines) + [ln]
      ensures forall f :: f in registry.fields ==>
        f.i == old(f.i) + f.Step() && f.renders == old(f.renders) + 1
    {
      var prefix := RenderScoped(registry);
      ln := prefix + FormatLine(decl, values);
      lines := lines + [ln];
    }

    /** `out`: writes every buffered line followed by '\n' after what the stream
        `os` already holds; the buffer is left as it is. */
    method Out(os: string) returns (r: string)
      ensures r == os + Dump(lines)
    {
      r := os;
      var k := 0;
      while k < |lines|
        invariant 0 <= k <= |lines|
        invariant r == os + Dump(lines[..k])
      {
        assert lines[..k + 1] == lines[..k] + [lines[k]];
        DumpSnoc(lines[..k], lines[k]);
        r := r + lines[k] + "\n";
        k := k + 1;
      }
      assert lines[..k] == lines;
    }
  }

  lemma SmallTexts()
    ensures Spaces(2) == "  " && ToDecimal(1) == "1" && ToDecimal(2) == "2"
  {
    assert NatDigits(1) == "1";
    assert NatDigits(2) == "2";
  }

  lemma PrefixTextOne(a: ScopedField)
    ensures PrefixText([a]) == ScopedOut(a.kind, a.i)
  {
    var t := ScopedOut(a.kind, a.i);
    assert Texts([a]) == [t];
    assert [t][..0] == [];
    assert Concat([t]) == "" + t;
  }

  /** A client: the line `[literal "INFO", separator ' ', text<>]` with
      "hello", first alone and then while a `scoped_indent<2>` is alive. */
  method Scenario()
  {
    var registry := new Registry();
    var log := new Log();
    var decl := [LiteralText("INFO"), Separator(' '), RuntimeText];
    InfoHelloExample();
    var plain := log.Add(registry, decl, [TextField("hello")]);
    assert plain == "INFO hello";

    var indent := new ScopedField(ScopedIndent(2), registry);
    SmallTexts();
    PrefixTextOne(indent);
    assert PrefixText(registry.fields) == "  ";
    var indented := log.Add(registry, decl, [TextField("hello")]);
    assert indented == "  " + "INFO hello";
  }

  /** A client: a `scoped_index<1, 1>` renders 1, then 2; once released it
      is no longer registered. */
  method CounterScenario()
  {
    var registry := new Registry();
    var counter := new ScopedField(ScopedIndex(1, 1), registry);
    SmallTexts();
    var a := counter.Render();
    var b := counter.Render();
    assert a == "1" && b == "2";
    counter.Release(registry);
    assert counter !in registry.fields;
  }
}
