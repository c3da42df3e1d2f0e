/** The padding routine itself, which inserts into the list of fields it is given. */
module Uorb {
  import opened Sequences
  import opened UorbLayout
  import opened UorbAgreement

  function WithSize(f: Field): Field {
    if f.isHeader then f else f.(sizeofFieldType := Some(ElementSize(f)))
  }

  class FieldList {
    var fields: seq<Field>

    constructor (fields: seq<Field>)
      ensures this.fields == fields
    {
      this.fields := fields;
    }

    method AddPaddingBytes() returns (structSize: nat, endPadding: nat)
      modifies this
      ensures AddPadding(old(fields)).fields == fields && AddPadding(old(fields)).size == structSize
      ensures endPadding == EndPadding(old(fields))
      decreases DepthAll(fields), 1
    {
      ghost var given := fields;
      ghost var whole := Walk(FillIn(given), TIMESTAMP, 0);
      structSize := TIMESTAMP;
      var i: nat, paddingIdx: nat := 0, 0;
      ghost var k := 0;
      assert given[0..] == given && [] + whole.fields == whole.fields;
      while i < |fields|
        invariant i <= |fields| && k <= |given| && fields[i..] == given[k..]
        invariant whole == Behind(fields[..i], Walk(FillIn(given[k..]), structSize, paddingIdx))
        decreases |given| - k
      {
        assert fields[i] == fields[i..][0] == given[k] && fields[i..][1..] == given[k + 1..];
        DepthOfPart(given, k);
        ghost var done, size, index := fields[..i], structSize, paddingIdx;
        i, structSize, paddingIdx := PadField(i, structSize, paddingIdx);
        OneMore(whole, given, k, done, size, index, fields[..i], structSize, paddingIdx);
        k := k + 1;
      }
      assert fields[..i] == fields;
      assert whole == Padded(fields + [], structSize, paddingIdx) && fields + [] == fields;
      structSize, endPadding := AppendPadding(structSize, paddingIdx);
    }

    /** Padding at the end of the structure. */
    method AppendPadding(structSize: nat, paddingIdx: nat) returns (size: nat, endPadding: nat)
      modifies this
      ensures fields == old(fields) + PaddingFor(structSize, paddingIdx)
      ensures endPadding == Gap(structSize) && size == structSize + endPadding
    {
      size, endPadding := structSize, ALIGN_TO - structSize % ALIGN_TO;
      if endPadding == ALIGN_TO {
        assert fields + [] == fields;
        endPadding := 0;
      } else {
        fields := fields + [PaddingField(paddingIdx, endPadding)];
        size := size + endPadding;
      }
    }

    /** Padding in front of the embedded field at `i`, if the size reached is not a multiple of eight. */
    method InsertPadding(i: nat, structSize: nat, paddingIdx: nat) returns (next: nat, size: nat, index: nat)
      requires i <= |fields|
      modifies this
      ensures var padding := PaddingFor(structSize, paddingIdx);
              && fields == old(fields[..i]) + padding + old(fields[i..])
              && next == i + |padding| && index == paddingIdx + |padding|
      ensures size == structSize + Gap(structSize)
    {
      next, size, index := i, structSize, paddingIdx;
      var numPaddingBytes := ALIGN_TO - size % ALIGN_TO;
      if numPaddingBytes != ALIGN_TO {
        fields := fields[..i] + [PaddingField(index, numPaddingBytes)] + fields[i..];
        next := next + 1;
        index := index + 1;
        size := size + numPaddingBytes;
      }
    }

    /** One turn of the loop: the field at `i` gets its size, and padding in front of it if it needs any. */
    method PadField(i: nat, structSize: nat, paddingIdx: nat) returns (next: nat, size: nat, index: nat)
      requires i < |fields|
      modifies this
      ensures var sized := WithSize(old(fields[i]));
              var out := Emitted(sized, structSize, paddingIdx);
              && next == i + |out| <= |fields|
              && fields[..next] == old(fields[..i]) + out
              && fields[next..] == old(fields[i..])[1..]
              && size == NextSize(sized, structSize)
              && index == paddingIdx + |out| - 1
      decreases Depth(fields[i]), 0
    {
      var field := fields[i];
      next, size, index := i, structSize, paddingIdx;
      if !field.isHeader {
        var elementSize;
        match field.kind {
          case Builtin =>
            elementSize := SizeKey(field);
          case Embedded(children) =>
            next, size, index := InsertPadding(i, size, index);
            var childrenFields := new FieldList(Sort(children));
            var unused;
            elementSize, unused := childrenFields.AddPaddingBytes();
        }
        fields := fields[next := field.(sizeofFieldType := Some(elementSize))];
        size := size + Bytes(fields[next]);
      }
      next := next + 1;
    }
  }

  lemma FillInFirst(fields: seq<Field>, k: nat)
    requires k < |fields|
    ensures FillIn(fields[k..]) == [WithSize(fields[k])] + FillIn(fields[k + 1..])
  {
  }

  lemma WalkCons(f: Field, rest: seq<Field>, size: nat, index: nat)
    ensures var out := Emitted(f, size, index);
            Walk([f] + rest, size, index) == Behind(out, Walk(rest, NextSize(f, size), index + |out| - 1))
  {
    var out, size', index' := WalkFirst([f] + rest, size, index);
    assert ([f] + rest)[1..] == rest;
  }

  /** The walk from one field on is that field put out, and the walk from the next. */
  lemma OneMore(whole: Padded, given: seq<Field>, k: nat, done: seq<Field>, size: nat, index: nat,
                further: seq<Field>, size': nat, index': nat)
    requires k < |given| && whole == Behind(done, Walk(FillIn(given[k..]), size, index))
    requires var f := WithSize(given[k]);
             var out := Emitted(f, size, index);
             further == done + out && size' == NextSize(f, size) && index' == index + |out| - 1
    ensures whole == Behind(further, Walk(FillIn(given[k + 1..]), size', index'))
  {
    var f := WithSize(given[k]);
    var later := FillIn(given[k + 1..]);
    FillInFirst(given, k);
    WalkCons(f, later, size, index);
    ConcatAssociative(done, Emitted(f, size, index), Walk(later, size', index').fields);
  }

  lemma DepthOfPart(fields: seq<Field>, k: nat)
    requires k < |fields|
    ensures Depth(fields[k]) <= DepthAll(fields)
  {
  }
}
