/** Scoped fields and the registry of the scoped fields currently alive.
    Constructing a scoped field appends it to the registry; destroying it
    erases it again, and every log line starts with the registry's renderings. */
module Scoped {
  import opened Fields

  /** The scoped field kinds: `scoped_indent<w>`, `scoped_index<begin, offset>`
      and `scoped_text<literal>`. */
  datatype ScopedKind =
    | ScopedIndent(width: nat)
    | ScopedIndex(begin: int, offset: int)
    | ScopedText(text: string)

  /** What a scoped field of kind `k` whose counter holds `i` writes (the three
      `out` bodies). */
  function ScopedOut(k: ScopedKind, i: int): string
  {
    match k
    case ScopedIndent(w) => Spaces(w)
    case ScopedIndex(_, _) => ToDecimal(i)
    case ScopedText(t) => CString(t)
  }

  /** A `scoped_indent` writes `width` spaces, a `scoped_index` the base-10
      text of its counter, and a `scoped_text` its literal as a C string (cut at
      an embedded '\0'). */
  lemma ScopedOutWrites(k: ScopedKind, i: int)
    ensures k.ScopedIndent? ==> |ScopedOut(k, i)| == k.width && forall n :: 0 <= n < |ScopedOut(k, i)| ==> ScopedOut(k, i)[n] == ' '
    ensures k.ScopedIndex? ==> ParseDecimal(ScopedOut(k, i)) == Some(i)
    ensures k.ScopedText? ==> ScopedOut(k, i) == CString(k.text)
  {
    ToDecimalRoundTrip(i);
  }

  /** How far `n` renderings move a counter that advances by `offset` each time. */
  function Advance(n: nat, offset: int): int
  {
    if n == 0 then 0 else Advance(n - 1, offset) + offset
  }

  lemma {:induction false} AdvanceIsProduct(n: nat, offset: int)
    ensures Advance(n, offset) == n * offset
  {
    if n > 0 {
      AdvanceIsProduct(n - 1, offset);
    }
  }

  /** Every occurrence of `x` erased from `s`, the others kept in order
      (`erase(remove(begin, end, x), end)`). */
  function RemoveAll<T(==)>(s: seq<T>, x: T): (r: seq<T>)
    ensures x !in r
    ensures forall y :: y in r ==> y in s
    ensures forall y :: y in s && y != x ==> multiset(r)[y] == multiset(s)[y]
  {
    if s == [] then []
    else
      assert s == [s[0]] + s[1..];
      (if s[0] == x then [] else [s[0]]) + RemoveAll(s[1..], x)
  }

  /** Erasing distributes over concatenation: entries on either side of a
      split keep their relative order. */
  lemma {:induction false} RemoveAllAppend<T>(a: seq<T>, b: seq<T>, x: T)
    ensures RemoveAll(a + b, x) == RemoveAll(a, x) + RemoveAll(b, x)
  {
    if a == [] {
      assert a + b == b;
    } else {
      assert (a + b)[1..] == a[1..] + b;
      RemoveAllAppend(a[1..], b, x);
    }
  }

  /** Erasing an absent entry changes nothing. */
  lemma {:induction false} RemoveAllAbsent<T>(s: seq<T>, x: T)
    requires x !in s
    ensures RemoveAll(s, x) == s
  {
    if s != [] {
      RemoveAllAbsent(s[1..], x);
    }
  }

  /** Erasing the one occurrence of `x` joins what was before and after it. */
  lemma RemoveAllSingle<T>(a: seq<T>, x: T, b: seq<T>)
    requires x !in a && x !in b
    ensures RemoveAll(a + [x] + b, x) == a + b
  {
    assert [x][1..] == [];
    assert RemoveAll([x], x) == [];
    RemoveAllAppend(a, [x], x);
    RemoveAllAbsent(a, x);
    assert RemoveAll(a + [x], x) == a;
    RemoveAllAppend(a + [x], b, x);
    RemoveAllAbsent(b, x);
  }

  ghost predicate Distinct<T>(s: seq<T>)
  {
    forall i, j :: 0 <= i < j < |s| ==> s[i] != s[j]
  }

  /** Erasing from a sequence without repetitions leaves none. */
  lemma {:induction false} RemoveAllDistinct<T>(s: seq<T>, x: T)
    requires Distinct(s)
    ensures Distinct(RemoveAll(s, x))
  {
    if s != [] {
      RemoveAllDistinct(s[1..], x);
      var rest := RemoveAll(s[1..], x);
      assert s[0] !in s[1..];
      assert multiset(s[1..])[s[0]] == 0;
      assert s[0] !in rest by {
        if s[0] != x { assert multiset(rest)[s[0]] == 0; }
      }
    }
  }

  /** A scoped field object. Only `scoped_index` has state: the value `i` it
      renders next. */
  class ScopedField {
    const kind: ScopedKind
    var i: int
    /** How many times this field has been rendered. */
    ghost var renders: nat

    ghost predicate Valid()
      reads this
    {
      kind.ScopedIndex? ==> i == kind.begin + Advance(renders, kind.offset)
    }

    /** How far one rendering moves `i`. */
    function Step(): int
    {
      if kind.ScopedIndex? then kind.offset else 0
    }

    /** The constructor: `i = begin`, and the field appends itself to the registry. */
    constructor (kind: ScopedKind, registry: Registry)
      requires registry.Valid()
      modifies registry
      ensures Valid() && this.kind == kind && renders == 0
      ensures kind.ScopedIndex? ==> i == kind.begin
      ensures registry.Valid()
      ensures registry.fields == old(registry.fields) + [this]
    {
      this.kind := kind;
      i := if kind.ScopedIndex? then kind.begin else 0;
      renders := 0;
      new;
      registry.fields := registry.fields + [this];
    }

    /** The destructor: every registry entry that is this field is erased; the
        others keep their order. */
    method Release(registry: Registry)
      requires registry.Valid()
      modifies registry
      ensures registry.Valid()
      ensures registry.fields == RemoveAll(old(registry.fields), this)
    {
      var fs := registry.fields;
      var kept: seq<ScopedField> := [];
      var k := 0;
      while k < |fs|
        invariant 0 <= k <= |fs|
        invariant kept == RemoveAll(fs[..k], this)
      {
        assert fs[..k + 1] == fs[..k] + [fs[k]];
        RemoveAllAppend(fs[..k], [fs[k]], this);
        if fs[k] != this {
          kept := kept + [fs[k]];
        }
        k := k + 1;
      }
      assert fs[..k] == fs;
      RemoveAllDistinct(fs, this);
      registry.fields := kept;
    }

    /** `out`: writes the current text; `scoped_index` then advances `i` by
        `offset`, so successive renderings write begin, begin + offset, ... */
    method Render() returns (s: string)
      requires Valid()
      modifies this
      ensures Valid()
      ensures s == ScopedOut(kind, old(i))
      ensures kind.ScopedIndex? ==> s == ToDecimal(kind.begin + old(renders) * kind.offset)
      ensures i == old(i) + Step() && renders == old(renders) + 1
    {
      match kind {
        case ScopedIndent(w) =>
          s := Spaces(w);
        case ScopedIndex(_, offset) =>
          AdvanceIsProduct(renders, offset);
          s := ToDecimal(i);
          i := i + offset;
        case ScopedText(t) =>
          s := CString(t);
      }
      renders := renders + 1;
    }
  }

  /** The registry (`scoped_field_list`): the scoped fields alive, in the order
      they were constructed. */
  class Registry {
    var fields: seq<ScopedField>

    ghost predicate Valid()
      reads this, fields
    {
      && Distinct(fields)
      && forall f :: f in fields ==> f.Valid()
    }

    constructor ()
      ensures Valid() && fields == []
    {
      fields := [];
    }
  }

  /** The texts the scoped fields `fs` write next, in order. */
  function Texts(fs: seq<ScopedField>): (ts: seq<string>)
    reads fs
    ensures |ts| == |fs|
    ensures forall k {:trigger ts[k]} :: 0 <= k < |fs| ==> ts[k] == ScopedOut(fs[k].kind, fs[k].i)
  {
    if fs == [] then [] else Texts(fs[..|fs| - 1]) + [ScopedOut(fs[|fs| - 1].kind, fs[|fs| - 1].i)]
  }

  /** The strings of `ts` written one after another. */
  function Concat(ts: seq<string>): string
  {
    if ts == [] then "" else Concat(ts[..|ts| - 1]) + ts[|ts| - 1]
  }

  lemma ConcatSnoc(ts: seq<string>, t: string)
    ensures Concat(ts + [t]) == Concat(ts) + t
  {
    assert (ts + [t])[..|ts|] == ts;
  }

  lemma {:induction false} ConcatAppend(a: seq<string>, b: seq<string>)
    ensures Concat(a + b) == Concat(a) + Concat(b)
    decreases |b|
  {
    if b == [] {
      assert a + b == a;
    } else {
      var c, x := b[..|b| - 1], b[|b| - 1];
      assert (a + b)[..|a + b| - 1] == a + c;
      assert (a + b)[|a + b| - 1] == x;
      ConcatAppend(a, c);
      assert Concat(a + b) == Concat(a + c) + x;
    }
  }

  /** What rendering the scoped fields `fs`, in order, writes (each from its
      current state). */
  function PrefixText(fs: seq<ScopedField>): string
    reads fs
  {
    Concat(Texts(fs))
  }

  /** Rendering the concatenation of two registry slices writes the first, then
      the second. */
  lemma PrefixTextAppend(a: seq<ScopedField>, b: seq<ScopedField>)
    ensures PrefixText(a + b) == PrefixText(a) + PrefixText(b)
  {
    assert Texts(a + b) == Texts(a) + Texts(b);
    ConcatAppend(Texts(a), Texts(b));
  }

  /** Once the field `x`, registered once between `a` and `b`, is released,
      lines start with the renderings of `a` and then `b`: its own text is gone
      and the others keep their order. */
  lemma PrefixAfterRelease(a: seq<ScopedField>, x: ScopedField, b: seq<ScopedField>)
    requires x !in a && x !in b
    ensures PrefixText(RemoveAll(a + [x] + b, x)) == PrefixText(a) + PrefixText(b)
  {
    RemoveAllSingle(a, x, b);
    PrefixTextAppend(a, b);
  }
}
