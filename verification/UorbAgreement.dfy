/**
 What the padding of uORB messages achieves: the C compiler adds nothing of its own, the size computed is the size
 of the structure, and no declared field is moved.
 */
module UorbAgreement {
  import opened Sequences
  import opened UorbLayout

  // ---------- Lists whose element sizes are filled in ----------

  /** What the size map and the padding of embedded types guarantee about one printed field. */
  predicate Regular(f: Field) {
    f.isHeader ||
    (&& f.sizeofFieldType.Some?
     && if f.kind.Builtin? then f.sizeofFieldType.value == SizeKey(f) > 0
        else SizeKey(f) == 0 && f.sizeofFieldType.value % 8 == 0)
  }

  predicate AllRegular(fields: seq<Field>) {
    forall f :: f in fields ==> Regular(f)
  }

  predicate FitsKey(size: nat, key: nat) {
    key > 0 ==> size % key == 0
  }

  /** The size reached is a multiple of the size of every field to come. */
  predicate Ready(fields: seq<Field>, size: nat) {
    forall i :: 0 <= i < |fields| ==> FitsKey(size, SizeKey(fields[i]))
  }

  predicate IsKey(key: nat) {
    key == 1 || key == 2 || key == 4 || key == 8
  }

  lemma SmallerKeysFit(size: nat, key: nat, smaller: nat)
    requires IsKey(key) && (smaller == 0 || IsKey(smaller))
    requires size % key == 0 && smaller <= key
    ensures FitsKey(size, smaller)
  {
  }

  lemma MultipleFits(size: nat, key: nat, count: nat)
    requires IsKey(key) && size % key == 0
    ensures (size + key * count) % key == 0
  {
  }

  /** Behind a field, the size still fits every field to come: smaller powers of two, or embedded types. */
  lemma ReadyNext(f: Field, rest: seq<Field>, size: nat)
    requires Regular(f) && Descending([f] + rest) && Ready([f] + rest, size)
    ensures Ready(rest, NextSize(f, size))
  {
    var all := [f] + rest;
    assert all[0] == f;
    forall i | 0 <= i < |rest| ensures FitsKey(NextSize(f, size), SizeKey(rest[i])) {
      assert all[i + 1] == rest[i];
      if !f.isHeader && f.kind.Builtin? {
        MultipleFits(size, SizeKey(f), Count(f));
        SmallerKeysFit(size + Bytes(f), SizeKey(f), SizeKey(rest[i]));
      }
    }
  }

  lemma DescendingTail(f: Field, rest: seq<Field>)
    requires Descending([f] + rest)
    ensures Descending(rest)
  {
    forall i, j | 0 <= i < j < |rest| ensures SizeKey(rest[i]) >= SizeKey(rest[j]) {
      assert ([f] + rest)[i + 1] == rest[i] && ([f] + rest)[j + 1] == rest[j];
    }
  }

  lemma {:induction false} DigitsOnly(n: nat)
    ensures '/' !in Decimal(n) && '[' !in Decimal(n)
  {
    if n >= 10 {
      DigitsOnly(n / 10);
    }
  }

  /** A padding field is made of single bytes. */
  lemma PaddingIsBytes(index: nat, bytes: nat)
    ensures SizeKey(PaddingField(index, bytes)) == 1
    ensures Bytes(PaddingField(index, bytes)) == bytes
  {
    DigitsOnly(bytes);
    BareNameIsName(None, "uint8", Some(Decimal(bytes) + "]"));
    assert "uint8" + ("[" + (Decimal(bytes) + "]")) == "uint8[" + Decimal(bytes) + "]";
  }

  lemma {:induction false} ArrayEndIs(start: nat, element: nat, count: nat)
    ensures ArrayEnd(start, element, count) == start + element * count
    decreases count
  {
    if count > 0 {
      ArrayEndIs(start + element, element, count - 1);
      assert element * count == element + element * (count - 1);
    }
  }

  /** The compiler puts the elements of a field one behind the other, in the bytes the generator reckons with. */
  lemma CNextIs(f: Field, offset: nat)
    ensures CNext(f, offset) == if f.isHeader then offset else CStart(f, offset) + Bytes(f)
  {
    if f.sizeofFieldType.Some? {
      ArrayEndIs(CStart(f, offset), f.sizeofFieldType.value, Count(f));
    } else {
      ArrayEndIs(CStart(f, offset), 0, Count(f));
    }
  }

  lemma NamesAgree(name: string)
    requires SizeOfBuiltin(name) > 0
    ensures CSizeof(CType(name)) == SizeOfBuiltin(name)
  {
  }

  /** The size map gives every type in it the size of the C type printed for it. */
  lemma BuiltinsAgree(f: Field)
    requires SizeKey(f) > 0
    ensures CBuiltin(f) == SizeKey(f)
  {
    NamesAgree(BareName(f.typ));
  }

  lemma {:induction false} LayoutConcat(a: seq<Field>, b: seq<Field>, offset: nat)
    ensures CEnd(a + b, offset) == CEnd(b, CEnd(a, offset))
    ensures NoHoles(a + b, offset) <==> NoHoles(a, offset) && NoHoles(b, CEnd(a, offset))
    ensures CMembers(a + b, offset) == CMembers(a, offset) + CMembers(b, CEnd(a, offset))
    decreases a
  {
    if a == [] {
      assert a + b == b;
    } else {
      var next := CNext(a[0], offset);
      assert (a + b)[1..] == a[1..] + b;
      LayoutConcat(a[1..], b, next);
      ConcatAssociative(CMember(a[0], offset), CMembers(a[1..], next), CMembers(b, CEnd(a[1..], next)));
    }
  }

  lemma PaddingFits(size: nat, index: nat)
    ensures NoHoles(PaddingFor(size, index), size)
    ensures CEnd(PaddingFor(size, index), size) == size + Gap(size)
  {
    if Gap(size) > 0 {
      var padding := PaddingField(index, Gap(size));
      PaddingIsBytes(index, Gap(size));
      BuiltinsAgree(padding);
      CNextIs(padding, size);
      assert [padding][1..] == [];
    }
  }

  lemma OneField(f: Field, offset: nat)
    ensures CEnd([f], offset) == CNext(f, offset)
    ensures CMembers([f], offset) == CMember(f, offset)
    ensures NoHoles([f], offset) <==> f.isHeader || CStart(f, offset) == offset
  {
  }

  /** One field of the loop: no holes, the size the loop computes, and the field where it was anyway. */
  lemma EmittedFits(f: Field, size: nat, index: nat)
    requires Regular(f) && FitsKey(size, SizeKey(f))
    ensures var out := Emitted(f, size, index);
            && NoHoles(out, size)
            && CEnd(out, size) == NextSize(f, size) == CNext(f, size)
            && Subsequence(CMember(f, size), CMembers(out, size))
  {
    OneField(f, size);
    CNextIs(f, size);
    if !f.isHeader && f.kind.Builtin? {
      BuiltinsAgree(f);
    }
    if !f.isHeader && f.kind.Embedded? {
      var padding := PaddingFor(size, index);
      var start := size + Gap(size);
      assert CStart(f, size) == start && CStart(f, start) == start;
      PaddingFits(size, index);
      OneField(f, start);
      CNextIs(f, start);
      LayoutConcat(padding, [f], size);
      SubsequenceSelf(CMember(f, size));
      SubsequenceSkips(CMember(f, size), CMembers(padding, size), CMember(f, start));
    } else {
      SubsequenceSelf(CMember(f, size));
    }
  }

  /** What the loop must establish for a list, from a size on. */
  predicate Fits(fields: seq<Field>, size: nat, p: Padded) {
    && NoHoles(p.fields, size)
    && CEnd(p.fields, size) == p.size == CEnd(fields, size)
    && Subsequence(CMembers(fields, size), CMembers(p.fields, size))
  }

  lemma FitsBehind(f: Field, rest: seq<Field>, size: nat, out: seq<Field>, size': nat, p: Padded)
    requires NoHoles(out, size) && CEnd(out, size) == size' == CNext(f, size)
    requires Subsequence(CMember(f, size), CMembers(out, size))
    requires Fits(rest, size', p)
    ensures Fits([f] + rest, size, Behind(out, p))
  {
    assert ([f] + rest)[1..] == rest;
    LayoutConcat(out, p.fields, size);
    SubsequenceConcat(CMember(f, size), CMembers(out, size), CMembers(rest, size'), CMembers(p.fields, size'));
  }

  /**
   After the padding loop every member is right behind the one before, the end is the size computed, and the
   compiler would have put the fields at the same offsets without the padding.
   */
  lemma {:induction false} WalkFits(fields: seq<Field>, size: nat, index: nat)
    requires AllRegular(fields) && Descending(fields) && Ready(fields, size)
    ensures Fits(fields, size, Walk(fields, size, index))
    decreases fields
  {
    if fields == [] {
    } else {
      var f, rest := fields[0], fields[1..];
      assert fields == [f] + rest;
      assert Regular(f) && FitsKey(size, SizeKey(f));
      EmittedFits(f, size, index);
      ReadyNext(f, rest, size);
      DescendingTail(f, rest);
      var out, size', index' := WalkFirst(fields, size, index);
      WalkFits(rest, size', index');
      FitsBehind(f, rest, size, out, size', Walk(rest, size', index'));
    }
  }

  /** All of it for a whole structure. */
  predicate Agrees(fields: seq<Field>, p: Padded) {
    && NoHoles(p.fields, TIMESTAMP)
    && CEnd(p.fields, TIMESTAMP) == CStructSize(p.fields) == p.size
    && p.size % 8 == 0
    && CStructSize(fields) == p.size
    && Subsequence(CMembers(fields, TIMESTAMP), CMembers(p.fields, TIMESTAMP))
  }

  lemma EndFits(fields: seq<Field>, p: Padded)
    requires Fits(fields, TIMESTAMP, p)
    ensures Agrees(fields, Padded(p.fields + PaddingFor(p.size, p.index), p.size + Gap(p.size),
                                  p.index + |PaddingFor(p.size, p.index)|))
  {
    var end := PaddingFor(p.size, p.index);
    PaddingFits(p.size, p.index);
    LayoutConcat(p.fields, end, TIMESTAMP);
    SubsequenceConcat(CMembers(fields, TIMESTAMP), CMembers(p.fields, TIMESTAMP), [], CMembers(end, p.size));
    assert CMembers(fields, TIMESTAMP) + [] == CMembers(fields, TIMESTAMP);
  }

  lemma PadAgrees(fields: seq<Field>)
    requires AllRegular(fields) && Descending(fields)
    ensures Agrees(fields, Pad(fields))
    ensures CEnd(fields, TIMESTAMP) == Walk(fields, TIMESTAMP, 0).size
  {
    assert Ready(fields, TIMESTAMP);
    WalkFits(fields, TIMESTAMP, 0);
    EndFits(fields, Walk(fields, TIMESTAMP, 0));
  }

  // ---------- From element sizes to whole definitions ----------

  lemma {:induction false} FillInAt(fields: seq<Field>, i: nat)
    requires i < |fields|
    ensures FillIn(fields)[i]
         == if fields[i].isHeader then fields[i] else fields[i].(sizeofFieldType := Some(ElementSize(fields[i])))
  {
    if i > 0 {
      FillInAt(fields[1..], i - 1);
    }
  }

  lemma {:induction false} CFillInAt(fields: seq<Field>, i: nat)
    requires i < |fields|
    ensures CFillIn(fields)[i]
         == if fields[i].isHeader then fields[i] else fields[i].(sizeofFieldType := Some(CSize(fields[i])))
  {
    if i > 0 {
      CFillInAt(fields[1..], i - 1);
    }
  }

  /** Has this field the element size the compiler gives it? */
  predicate CSettled(f: Field) {
    f.isHeader || f.sizeofFieldType == Some(CSize(f))
  }

  predicate Settled(f: Field) {
    f.isHeader || f.sizeofFieldType == Some(ElementSize(f))
  }

  lemma CFillInSettled(fields: seq<Field>)
    requires forall f :: f in fields ==> CSettled(f)
    ensures CFillIn(fields) == fields
  {
    forall i | 0 <= i < |fields| ensures CFillIn(fields)[i] == fields[i] {
      CFillInAt(fields, i);
      assert CSettled(fields[i]);
    }
  }

  lemma FillInSettled(fields: seq<Field>)
    requires forall f :: f in fields ==> Settled(f)
    ensures FillIn(fields) == fields
  {
    forall i | 0 <= i < |fields| ensures FillIn(fields)[i] == fields[i] {
      FillInAt(fields, i);
      assert Settled(fields[i]);
    }
  }

  ghost predicate IsPadding(f: Field) {
    exists index: nat, bytes: nat :: f == PaddingField(index, bytes)
  }

  /** The loop puts out its fields and padding, nothing else. */
  lemma {:induction false} WalkAdds(fields: seq<Field>, size: nat, index: nat)
    ensures forall f :: f in Walk(fields, size, index).fields ==> f in fields || IsPadding(f)
    decreases fields
  {
    if fields == [] {
    } else {
      var out, size', index' := WalkFirst(fields, size, index);
      WalkAdds(fields[1..], size', index');
      forall f | f in out ensures f == fields[0] || IsPadding(f) {
      }
    }
  }

  lemma PadAdds(fields: seq<Field>)
    ensures forall f :: f in Pad(fields).fields ==> f in fields || IsPadding(f)
  {
    WalkAdds(fields, TIMESTAMP, 0);
  }

  lemma PaddingSettled(f: Field)
    requires IsPadding(f)
    ensures CSettled(f) && Settled(f)
  {
    var index: nat, bytes: nat :| f == PaddingField(index, bytes);
    PaddingIsBytes(index, bytes);
    BuiltinsAgree(f);
  }

  /** The generator computes `sizeof`, and structures are multiples of eight. */
  lemma {:induction false} SizesAgree(f: Field)
    requires Known(f) && !f.isHeader
    ensures CSize(f) == ElementSize(f)
    ensures f.kind.Embedded? ==> ElementSize(f) % 8 == 0
    decreases Depth(f), 0
  {
    match f.kind
    case Builtin =>
      BuiltinsAgree(f);
    case Embedded(children) =>
      SortKeepsKnown(children);
      SortSorts(children);
      ListAgrees(Sort(children));
  }

  lemma {:induction false} FilledIn(fields: seq<Field>, i: nat)
    requires AllKnown(fields) && i < |fields|
    ensures var g := FillIn(fields)[i];
            Regular(g) && CSettled(g) && SizeKey(g) == SizeKey(fields[i]) && FillIn(fields)[i] == CFillIn(fields)[i]
    decreases DepthAll(fields), 1
  {
    var f := fields[i];
    assert Known(f) && f in fields;
    FillInAt(fields, i);
    CFillInAt(fields, i);
    if !f.isHeader {
      SizesAgree(f);
      SizeIgnoresAnnotation(f, Some(ElementSize(f)));
    }
  }

  lemma SizeIgnoresAnnotation(f: Field, size: Option<nat>)
    ensures CSize(f.(sizeofFieldType := size)) == CSize(f)
    ensures ElementSize(f.(sizeofFieldType := size)) == ElementSize(f)
  {
  }

  /** In any order, the sizes the generator fills in are those of the compiler, in the padding too. */
  lemma {:induction false} ListSettled(fields: seq<Field>)
    requires AllKnown(fields)
    ensures var sized := FillIn(fields);
            && AllRegular(sized) && CFillIn(fields) == sized
            && CFillIn(Pad(sized).fields) == Pad(sized).fields
            && forall i :: 0 <= i < |fields| ==> SizeKey(sized[i]) == SizeKey(fields[i])
    decreases DepthAll(fields), 2
  {
    var sized := FillIn(fields);
    forall i | 0 <= i < |fields|
      ensures Regular(sized[i]) && CSettled(sized[i]) && SizeKey(sized[i]) == SizeKey(fields[i])
      ensures sized[i] == CFillIn(fields)[i]
    {
      FilledIn(fields, i);
    }
    PadAdds(sized);
    forall f | f in Pad(sized).fields ensures CSettled(f) {
      if f !in sized {
        PaddingSettled(f);
      }
    }
    CFillInSettled(Pad(sized).fields);
  }

  /** A sorted list of known fields, its sizes filled in, is laid out by the compiler as the generator computes. */
  lemma {:induction false} ListAgrees(fields: seq<Field>)
    requires AllKnown(fields) && Descending(fields)
    ensures CFillIn(fields) == FillIn(fields)
    ensures CFillIn(AddPadding(fields).fields) == AddPadding(fields).fields
    ensures Agrees(FillIn(fields), AddPadding(fields))
    ensures CEnd(FillIn(fields), TIMESTAMP) == Walk(FillIn(fields), TIMESTAMP, 0).size
    decreases DepthAll(fields), 3
  {
    ListSettled(fields);
    PadAgrees(FillIn(fields));
  }

  /** The bytes of padding at the end of the structure. */
  function EndPadding(fields: seq<Field>): nat {
    Gap(Walk(FillIn(fields), TIMESTAMP, 0).size)
  }

  /**
   The layout theorem, for any message definition of known types: the structure printed for the sorted and padded
   fields has no hidden holes, the size computed is its `sizeof` and a multiple of eight, the size without the
   padding at the end is where the last declared field ends, and no declared field is moved by the padding.
   */
  lemma CLayoutAgreement(fields: seq<Field>)
    requires AllKnown(fields)
    ensures var declared := CFillIn(Sort(fields));
            var printed := AddPadding(Sort(fields));
            && CFillIn(printed.fields) == printed.fields
            && NoHoles(printed.fields, TIMESTAMP)
            && CStructSize(printed.fields) == printed.size == CStructSize(declared)
            && printed.size % 8 == 0
            && printed.size - EndPadding(Sort(fields)) == CEnd(declared, TIMESTAMP)
            && Subsequence(CMembers(declared, TIMESTAMP), CMembers(printed.fields, TIMESTAMP))
  {
    SortKeepsKnown(fields);
    SortSorts(fields);
    ListAgrees(Sort(fields));
  }

  // ---------- Idempotence ----------

  lemma {:induction false} WalkConcat(a: seq<Field>, b: seq<Field>, size: nat, index: nat)
    ensures var p := Walk(a, size, index);
            Walk(a + b, size, index) == Behind(p.fields, Walk(b, p.size, p.index))
    decreases a
  {
    if a == [] {
      assert a + b == b;
      assert [] + Walk(b, size, index).fields == Walk(b, size, index).fields;
    } else {
      assert (a + b)[1..] == a[1..] + b;
      var out, size', index' := WalkFirst(a, size, index);
      WalkConcat(a[1..], b, size', index');
      var p := Walk(a[1..], size', index');
      ConcatAssociative(out, p.fields, Walk(b, p.size, p.index).fields);
    }
  }

  lemma PaddingAgain(size: nat, index: nat, again: nat)
    ensures Walk(PaddingFor(size, index), size, again)
         == Padded(PaddingFor(size, index), size + Gap(size), again)
  {
  }

  lemma EmittedAgain(f: Field, size: nat, index: nat, again: nat)
    ensures Walk(Emitted(f, size, index), size, again) == Padded(Emitted(f, size, index), NextSize(f, size), again)
  {
    assert [f][1..] == [] && [f] + [] == [f];
    if !f.isHeader && f.kind.Embedded? {
      var start := size + Gap(size);
      assert Gap(start) == 0;
      assert Emitted(f, start, again) == [f] by {
        assert [] + [f] == [f];
      }
      PaddingAgain(size, index, again);
      WalkConcat(PaddingFor(size, index), [f], size, again);
    }
  }

  lemma {:induction false} WalkAgain(fields: seq<Field>, size: nat, index: nat, again: nat)
    ensures var p := Walk(fields, size, index);
            Walk(p.fields, size, again) == Padded(p.fields, p.size, again)
    decreases fields
  {
    if fields == [] {
    } else {
      var out, size', index' := WalkFirst(fields, size, index);
      EmittedAgain(fields[0], size, index, again);
      WalkAgain(fields[1..], size', index', again);
      WalkConcat(out, Walk(fields[1..], size', index').fields, size, again);
    }
  }

  lemma PadAgain(fields: seq<Field>)
    ensures var p := Pad(fields);
            Walk(p.fields, TIMESTAMP, 0) == Padded(p.fields, p.size, 0) && Pad(p.fields) == Padded(p.fields, p.size, 0)
  {
    var p := Walk(fields, TIMESTAMP, 0);
    var end := PaddingFor(p.size, p.index);
    WalkAgain(fields, TIMESTAMP, 0, 0);
    WalkConcat(p.fields, end, TIMESTAMP, 0);
    PaddingAgain(p.size, p.index, 0);
    assert Gap(p.size + Gap(p.size)) == 0;
    assert Pad(fields).fields + [] == Pad(fields).fields;
  }

  /** Padding a padded list again changes nothing, whatever the fields and their order. */
  lemma PaddingIsIdempotent(fields: seq<Field>)
    ensures var p := AddPadding(fields);
            && AddPadding(p.fields) == Padded(p.fields, p.size, 0)
            && EndPadding(p.fields) == 0
  {
    var sized := FillIn(fields);
    var p := Pad(sized);
    forall f | f in sized ensures Settled(f) {
      var i :| 0 <= i < |sized| && sized[i] == f;
      FillInAt(fields, i);
      SizeIgnoresAnnotation(fields[i], Some(ElementSize(fields[i])));
    }
    PadAdds(sized);
    forall f | f in p.fields ensures Settled(f) {
      if f !in sized {
        PaddingSettled(f);
      }
    }
    FillInSettled(p.fields);
    PadAgain(sized);
  }

  // ---------- Why the fields are sorted ----------

  /** The bytes of all printed members, without any holes. */
  function TotalBytes(fields: seq<Field>): nat {
    if fields == [] then 0
    else (if fields[0].isHeader then 0 else Bytes(fields[0])) + TotalBytes(fields[1..])
  }

  lemma {:induction false} TotalConcat(a: seq<Field>, b: seq<Field>)
    ensures TotalBytes(a + b) == TotalBytes(a) + TotalBytes(b)
    decreases a
  {
    if a == [] {
      assert a + b == b;
    } else {
      assert (a + b)[1..] == a[1..] + b;
      TotalConcat(a[1..], b);
    }
  }

  /** The compiler needs at least the bytes of the members, and more exactly if it leaves holes. */
  lemma {:induction false} HolesCost(fields: seq<Field>, offset: nat)
    ensures CEnd(fields, offset) >= offset + TotalBytes(fields)
    ensures CEnd(fields, offset) == offset + TotalBytes(fields) <==> NoHoles(fields, offset)
    decreases fields
  {
    if fields != [] {
      CNextIs(fields[0], offset);
      HolesCost(fields[1..], CNext(fields[0], offset));
    }
  }

  lemma TotalOfPadding(size: nat, index: nat)
    ensures TotalBytes(PaddingFor(size, index)) == Gap(size)
  {
    if Gap(size) > 0 {
      PaddingIsBytes(index, Gap(size));
      assert PaddingFor(size, index)[1..] == [];
    }
  }

  lemma TotalOfEmitted(f: Field, size: nat, index: nat)
    ensures size + TotalBytes(Emitted(f, size, index)) == NextSize(f, size)
  {
    assert [f][1..] == [];
    TotalOfPadding(size, index);
    TotalConcat(PaddingFor(size, index), [f]);
  }

  /** The generator reckons with exactly the bytes of the members it puts out. */
  lemma {:induction false} WalkCounts(fields: seq<Field>, size: nat, index: nat)
    ensures Walk(fields, size, index).size == size + TotalBytes(Walk(fields, size, index).fields)
    decreases fields
  {
    if fields != [] {
      var out, size', index' := WalkFirst(fields, size, index);
      TotalOfEmitted(fields[0], size, index);
      WalkCounts(fields[1..], size', index');
      TotalConcat(out, Walk(fields[1..], size', index').fields);
    }
  }

  lemma PadCounts(fields: seq<Field>)
    ensures Pad(fields).size == TIMESTAMP + TotalBytes(Pad(fields).fields) && Pad(fields).size % 8 == 0
  {
    var p := Walk(fields, TIMESTAMP, 0);
    WalkCounts(fields, TIMESTAMP, 0);
    TotalOfPadding(p.size, p.index);
    TotalConcat(p.fields, PaddingFor(p.size, p.index));
  }

  /** In the sizes of the loop, every builtin begins at a multiple of its own size. */
  predicate OnBoundaries(fields: seq<Field>, size: nat)
    decreases fields
  {
    fields == []
    || ((fields[0].isHeader || FitsKey(size, SizeKey(fields[0])))
        && OnBoundaries(fields[1..], NextSize(fields[0], size)))
  }

  /** What the loop puts out for one field leaves a hole exactly if the field is a builtin off its boundary. */
  lemma EmittedFitsIff(f: Field, size: nat, index: nat)
    requires Regular(f)
    ensures var out := Emitted(f, size, index);
            && (NoHoles(out, size) <==> f.isHeader || FitsKey(size, SizeKey(f)))
            && (NoHoles(out, size) ==> CEnd(out, size) == NextSize(f, size))
  {
    if f.isHeader {
      OneField(f, size);
    } else if FitsKey(size, SizeKey(f)) {
      EmittedFits(f, size, index);
    } else {
      OneField(f, size);
      BuiltinsAgree(f);
    }
  }

  lemma {:induction false} WalkFitsIff(fields: seq<Field>, size: nat, index: nat)
    requires AllRegular(fields)
    ensures var p := Walk(fields, size, index);
            && (NoHoles(p.fields, size) <==> OnBoundaries(fields, size))
            && (NoHoles(p.fields, size) ==> CEnd(p.fields, size) == p.size)
    decreases fields
  {
    if fields != [] {
      var out, size', index' := WalkFirst(fields, size, index);
      assert Regular(fields[0]);
      EmittedFitsIff(fields[0], size, index);
      WalkFitsIff(fields[1..], size', index');
      LayoutConcat(out, Walk(fields[1..], size', index').fields, size);
    }
  }

  lemma PadFitsIff(fields: seq<Field>)
    requires AllRegular(fields)
    ensures NoHoles(Pad(fields).fields, TIMESTAMP) <==> OnBoundaries(fields, TIMESTAMP)
  {
    var p := Walk(fields, TIMESTAMP, 0);
    WalkFitsIff(fields, TIMESTAMP, 0);
    PaddingFits(p.size, p.index);
    LayoutConcat(p.fields, PaddingFor(p.size, p.index), TIMESTAMP);
  }

  /** The compiler needs the computed size exactly if it leaves no hole. */
  lemma SizeIffNoHoles(fields: seq<Field>, size: nat)
    requires size == TIMESTAMP + TotalBytes(fields) && size % 8 == 0
    ensures CStructSize(fields) >= size
    ensures CStructSize(fields) == size <==> NoHoles(fields, TIMESTAMP)
  {
    HolesCost(fields, TIMESTAMP);
  }

  lemma FilledAgreesIff(fields: seq<Field>, printed: Padded)
    requires AllRegular(fields) && printed == Pad(fields)
    ensures CStructSize(printed.fields) >= printed.size
    ensures CStructSize(printed.fields) == printed.size <==> OnBoundaries(fields, TIMESTAMP)
    ensures NoHoles(printed.fields, TIMESTAMP) <==> OnBoundaries(fields, TIMESTAMP)
  {
    PadFitsIff(fields);
    PadCounts(fields);
    SizeIffNoHoles(printed.fields, printed.size);
  }

  /**
   In any order of known fields, the size computed is never more than the `sizeof` of the structure printed, and
   it is the `sizeof` if and only if every builtin begins at a multiple of its size; otherwise the compiler leaves
   a hole that nobody reckons with.
   */
  lemma AgreesIffOnBoundaries(fields: seq<Field>)
    requires AllKnown(fields)
    ensures var printed := AddPadding(fields);
            && CStructSize(CFillIn(printed.fields)) >= printed.size
            && (CStructSize(CFillIn(printed.fields)) == printed.size <==> OnBoundaries(FillIn(fields), TIMESTAMP))
            && (NoHoles(printed.fields, TIMESTAMP) <==> OnBoundaries(FillIn(fields), TIMESTAMP))
  {
    ListSettled(fields);
    FilledAgreesIff(FillIn(fields), AddPadding(fields));
  }

  lemma OneBuiltin(f: Field, size: nat, index: nat)
    requires !f.isHeader && f.kind.Builtin?
    ensures Walk([f], size, index) == Padded([f], size + Bytes(f), index)
  {
  }

  const FLAG := Field("flag", "uint8", false, None, Builtin, Some(1))
  const COUNT := Field("count", "uint32", false, None, Builtin, Some(4))

  predicate IsBuiltin(f: Field, key: nat, bytes: nat) {
    !f.isHeader && f.kind.Builtin? && SizeKey(f) == key && f.sizeofFieldType == Some(key) && Bytes(f) == bytes
  }

  lemma PaddingIsBuiltin(index: nat, bytes: nat)
    ensures IsBuiltin(PaddingField(index, bytes), 1, bytes)
  {
    PaddingIsBytes(index, bytes);
  }

  lemma PadTwo(a: Field, b: Field)
    requires IsBuiltin(a, 1, 1) && IsBuiltin(b, 4, 4)
    ensures AddPadding([a, b]) == Padded([a, b, PaddingField(0, 3)], 16, 1)
  {
    FillInSettled([a, b]);
    OneBuiltin(a, 8, 0);
    OneBuiltin(b, 9, 0);
    WalkConcat([a], [b], 8, 0);
    assert [a] + [b] == [a, b];
    assert Walk([a, b], 8, 0) == Padded([a, b], 13, 0);
  }

  lemma CompileThree(a: Field, b: Field, c: Field)
    requires IsBuiltin(a, 1, 1) && IsBuiltin(b, 4, 4) && IsBuiltin(c, 1, 3)
    ensures CStructSize(CFillIn([a, b, c])) == 24
  {
    BuiltinsAgree(a);
    BuiltinsAgree(b);
    BuiltinsAgree(c);
    CFillInSettled([a, b, c]);
    CNextIs(a, 8);
    CNextIs(b, 9);
    CNextIs(c, 16);
    OneField(a, 8);
    OneField(b, 9);
    OneField(c, 16);
    LayoutConcat([a], [b], 8);
    LayoutConcat([a] + [b], [c], 8);
    assert [a, b, c] == [a] + [b] + [c];
  }

  lemma PlainBuiltin(f: Field, key: nat)
    requires '/' !in f.typ && '[' !in f.typ && SizeOfBuiltin(f.typ) == key
    requires !f.isHeader && f.kind.Builtin? && f.arrayLen == None && f.sizeofFieldType == Some(key)
    ensures IsBuiltin(f, key, key)
  {
    BareNameIsName(None, f.typ, None);
    assert f.typ + "" == f.typ;
  }

  lemma KnownNames()
    ensures SizeOfBuiltin("uint8") == 1 && SizeOfBuiltin("uint32") == 4
  {
  }

  /** Any byte in front of any 32-bit field: the size computed is 16, the structure takes 24 bytes. */
  lemma ByteThenWord(flag: Field, count: Field)
    requires IsBuiltin(flag, 1, 1) && IsBuiltin(count, 4, 4)
    ensures var printed := AddPadding([flag, count]);
            printed.size == 16 && CStructSize(CFillIn(printed.fields)) == 24
  {
    PaddingIsBuiltin(0, 3);
    PadTwo(flag, count);
    CompileThree(flag, count, PaddingField(0, 3));
  }

  /** Without the sort the computed size is wrong: a byte in front of a 32-bit field leaves a hole. */
  lemma UnsortedDisagrees()
    ensures var printed := AddPadding([FLAG, COUNT]);
            printed.size == 16 && CStructSize(CFillIn(printed.fields)) == 24
  {
    KnownNames();
    PlainBuiltin(FLAG, 1);
    PlainBuiltin(COUNT, 4);
    ByteThenWord(FLAG, COUNT);
  }
}
