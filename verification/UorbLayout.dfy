/**
 The generator of uORB message structures: field sizes, the size sort, the padding it writes out, and the layout
 a C compiler gives to the structure that is printed.
 */
module UorbLayout {
  import opened Sequences

  /** A field of a message definition; an embedded type carries the fields of its own definition. */
  datatype Field = Field(name: string, typ: string, isHeader: bool, arrayLen: Option<nat>, kind: Kind,
                         sizeofFieldType: Option<nat>)

  datatype Kind = Builtin | Embedded(children: seq<Field>)

  const ALIGN_TO := 8
  const TIMESTAMP := 8

  // ---------- Names and sizes ----------

  /** `s.split(c)[0]`. */
  function Before(s: string, c: char): (r: string)
    ensures c !in r
  {
    if s == "" || s[0] == c then "" else [s[0]] + Before(s[1..], c)
  }

  /** `s.split(c)[1]` of a text that has the separator. */
  function Between(s: string, c: char): string
    requires c in s
  {
    if s[0] == c then Before(s[1..], c) else Between(s[1..], c)
  }

  function BareName(typ: string): string {
    Before(if '/' in typ then Between(typ, '/') else typ, '[')
  }

  lemma {:induction false} BeforeSeparator(s: string, c: char, rest: string)
    requires c !in s
    ensures Before(s + [c] + rest, c) == s && Before(s, c) == s
  {
    var whole := s + [c] + rest;
    if s == "" {
    } else {
      assert s[0] in s;
      assert whole[1..] == s[1..] + [c] + rest;
      BeforeSeparator(s[1..], c, rest);
    }
  }

  lemma {:induction false} BetweenSeparator(s: string, c: char, rest: string)
    requires c !in s && c !in rest
    ensures Between(s + [c] + rest, c) == rest
  {
    var whole := s + [c] + rest;
    assert whole[|s|] == c;
    if s == "" {
      assert whole[1..] == rest;
      BeforeSeparator(rest, c, "");
    } else {
      assert s[0] in s;
      assert whole[1..] == s[1..] + [c] + rest;
      BetweenSeparator(s[1..], c, rest);
    }
  }

  /** The name is what is left of `dir/name[x]` without its prefix and suffix, either of which may be missing. */
  lemma BareNameIsName(dir: Option<string>, name: string, suffix: Option<string>)
    requires '/' !in name && '[' !in name
    requires dir.Some? ==> '/' !in dir.value
    requires suffix.Some? ==> '/' !in suffix.value
    ensures var tail := if suffix.Some? then "[" + suffix.value else "";
            var typ := if dir.Some? then dir.value + "/" + (name + tail) else name + tail;
            BareName(typ) == name
  {
    var tail := if suffix.Some? then "[" + suffix.value else "";
    assert '/' !in name + tail;
    if dir.Some? {
      BetweenSeparator(dir.value, '/', name + tail);
      assert (dir.value + "/" + (name + tail))[|dir.value|] == '/';
    }
    if suffix.Some? {
      BeforeSeparator(name, '[', suffix.value);
      assert name + tail == name + "[" + suffix.value;
    } else {
      BeforeSeparator(name, '[', "");
      assert name + tail == name;
    }
  }

  function SizeOfBuiltin(name: string): nat {
    if name == "int64" || name == "uint64" || name == "float64" then 8
    else if name == "int32" || name == "uint32" || name == "float32" then 4
    else if name == "int16" || name == "uint16" then 2
    else if name == "int8" || name == "uint8" || name == "bool" || name == "char" then 1
    else 0
  }

  /** `sizeof_field_type`, the key of the sort: 0 for everything that is not in the size map. */
  function SizeKey(f: Field): (r: nat)
    ensures r == 0 || r == 1 || r == 2 || r == 4 || r == 8
  {
    SizeOfBuiltin(BareName(f.typ))
  }

  function Count(f: Field): nat {
    if f.arrayLen.Some? then f.arrayLen.value else 1
  }

  // ---------- The sort ----------

  function Depth(f: Field): (r: nat) {
    match f.kind
    case Builtin => 0
    case Embedded(children) => 1 + DepthAll(children)
  }

  function DepthAll(fields: seq<Field>): (r: nat)
    ensures forall f :: f in fields ==> Depth(f) <= r
  {
    if fields == [] then 0
    else
      var d, more := Depth(fields[0]), DepthAll(fields[1..]);
      if d > more then d else more
  }

  /** Insert into a sorted list, in front of the elements with the same key. */
  function Insert<T>(key: T -> nat, x: T, sorted: seq<T>): seq<T> {
    if sorted == [] || key(x) >= key(sorted[0]) then [x] + sorted
    else [sorted[0]] + Insert(key, x, sorted[1..])
  }

  function SortBy<T>(key: T -> nat, all: seq<T>): seq<T> {
    if all == [] then [] else Insert(key, all[0], SortBy(key, all[1..]))
  }

  predicate DescendingBy<T>(key: T -> nat, all: seq<T>) {
    forall i, j :: 0 <= i < j < |all| ==> key(all[i]) >= key(all[j])
  }

  function WithKey<T>(key: T -> nat, all: seq<T>, k: nat): seq<T> {
    if all == [] then [] else (if key(all[0]) == k then [all[0]] else []) + WithKey(key, all[1..], k)
  }

  lemma {:induction false} InsertAdds<T>(key: T -> nat, x: T, sorted: seq<T>)
    ensures multiset(Insert(key, x, sorted)) == multiset(sorted) + multiset{x}
    decreases |sorted|
  {
    if sorted == [] || key(x) >= key(sorted[0]) {
    } else {
      InsertAdds(key, x, sorted[1..]);
      assert sorted == [sorted[0]] + sorted[1..];
    }
  }

  lemma {:induction false} InsertSorts<T>(key: T -> nat, x: T, sorted: seq<T>)
    requires DescendingBy(key, sorted)
    ensures DescendingBy(key, Insert(key, x, sorted))
    decreases |sorted|
  {
    if sorted == [] || key(x) >= key(sorted[0]) {
    } else {
      var rest := Insert(key, x, sorted[1..]);
      InsertSorts(key, x, sorted[1..]);
      InsertAdds(key, x, sorted[1..]);
      forall i | 0 <= i < |rest| ensures key(sorted[0]) >= key(rest[i]) {
        assert rest[i] in multiset(rest);
        assert rest[i] == x || rest[i] in sorted[1..];
      }
    }
  }

  lemma {:induction false} InsertIsStable<T>(key: T -> nat, x: T, sorted: seq<T>, k: nat)
    ensures WithKey(key, Insert(key, x, sorted), k) == WithKey(key, [x] + sorted, k)
    decreases |sorted|
  {
    assert ([x] + sorted)[1..] == sorted;
    if sorted == [] || key(x) >= key(sorted[0]) {
    } else {
      var rest := Insert(key, x, sorted[1..]);
      InsertIsStable(key, x, sorted[1..], k);
      assert ([sorted[0]] + rest)[1..] == rest;
      assert ([x] + sorted[1..])[1..] == sorted[1..];
    }
  }

  lemma {:induction false} SortBySorts<T>(key: T -> nat, all: seq<T>)
    ensures DescendingBy(key, SortBy(key, all)) && multiset(SortBy(key, all)) == multiset(all)
    decreases |all|
  {
    if all == [] {
    } else {
      SortBySorts(key, all[1..]);
      InsertSorts(key, all[0], SortBy(key, all[1..]));
      InsertAdds(key, all[0], SortBy(key, all[1..]));
      assert all == [all[0]] + all[1..];
    }
  }

  lemma {:induction false} SortByIsStable<T>(key: T -> nat, all: seq<T>, k: nat)
    ensures WithKey(key, SortBy(key, all), k) == WithKey(key, all, k)
    decreases |all|
  {
    if all == [] {
    } else {
      SortByIsStable(key, all[1..], k);
      InsertIsStable(key, all[0], SortBy(key, all[1..]), k);
      assert ([all[0]] + SortBy(key, all[1..]))[1..] == SortBy(key, all[1..]);
    }
  }

  lemma {:induction false} InsertKeepsDepth(key: Field -> nat, f: Field, sorted: seq<Field>)
    ensures DepthAll(Insert(key, f, sorted)) == if Depth(f) > DepthAll(sorted) then Depth(f) else DepthAll(sorted)
    decreases |sorted|
  {
    if sorted == [] || key(f) >= key(sorted[0]) {
      assert ([f] + sorted)[1..] == sorted;
    } else {
      InsertKeepsDepth(key, f, sorted[1..]);
      assert ([sorted[0]] + Insert(key, f, sorted[1..]))[1..] == Insert(key, f, sorted[1..]);
    }
  }

  lemma {:induction false} SortByKeepsDepth(key: Field -> nat, fields: seq<Field>)
    ensures DepthAll(SortBy(key, fields)) == DepthAll(fields)
    decreases |fields|
  {
    if fields != [] {
      SortByKeepsDepth(key, fields[1..]);
      InsertKeepsDepth(key, fields[0], SortBy(key, fields[1..]));
    }
  }

  /** `sorted(fields, key=sizeof_field_type, reverse=True)`: largest first, equal keys in their old order. */
  function Sort(fields: seq<Field>): (r: seq<Field>)
    ensures DepthAll(r) == DepthAll(fields)
  {
    SortByKeepsDepth(SizeKey, fields);
    SortBy(SizeKey, fields)
  }

  predicate Descending(fields: seq<Field>) {
    forall i, j :: 0 <= i < j < |fields| ==> SizeKey(fields[i]) >= SizeKey(fields[j])
  }

  lemma SortSorts(fields: seq<Field>)
    ensures Descending(Sort(fields)) && multiset(Sort(fields)) == multiset(fields)
  {
    SortBySorts(SizeKey, fields);
  }

  /** Fields of the same size stay in their order. */
  lemma SortIsStable(fields: seq<Field>, key: nat)
    ensures WithKey(SizeKey, Sort(fields), key) == WithKey(SizeKey, fields, key)
  {
    SortByIsStable(SizeKey, fields, key);
  }

  // ---------- Padding ----------

  /** Decimal digits, as `str` writes them. */
  function Decimal(n: nat): string {
    var digit := ['0' + (n % 10) as char];
    if n < 10 then digit else Decimal(n / 10) + digit
  }

  function PaddingField(index: nat, bytes: nat): Field {
    Field("_padding" + Decimal(index), "uint8[" + Decimal(bytes) + "]", false, Some(bytes), Builtin, Some(1))
  }

  /** Bytes up to the next multiple of eight; none if the size is one already. */
  function Gap(size: nat): (r: nat)
    ensures r < 8 && (size + r) % 8 == 0
    ensures r == 0 <==> size % 8 == 0
  {
    if size % 8 == 0 then 0 else 8 - size % 8
  }

  function PaddingFor(size: nat, index: nat): (r: seq<Field>)
    ensures DepthAll(r) == 0
  {
    if Gap(size) == 0 then [] else [PaddingField(index, Gap(size))]
  }

  datatype Padded = Padded(fields: seq<Field>, size: nat, index: nat)

  /** The bytes of a field whose element size has been filled in. */
  function Bytes(f: Field): nat {
    if f.sizeofFieldType.Some? then f.sizeofFieldType.value * Count(f) else 0
  }

  function Behind(first: seq<Field>, p: Padded): Padded {
    p.(fields := first + p.fields)
  }

  /** What the padding loop puts out for one field: the field, behind padding if it is embedded and has to be. */
  function Emitted(f: Field, size: nat, index: nat): seq<Field> {
    if f.isHeader || f.kind.Builtin? then [f] else PaddingFor(size, index) + [f]
  }

  function NextSize(f: Field, size: nat): nat {
    if f.isHeader then size
    else if f.kind.Builtin? then size + Bytes(f)
    else size + Gap(size) + Bytes(f)
  }

  /** The padding loop from one field on, over fields whose element sizes are filled in. */
  function Walk(fields: seq<Field>, size: nat, index: nat): Padded
    decreases fields
  {
    if fields == [] then Padded([], size, index)
    else
      var out := Emitted(fields[0], size, index);
      Behind(out, Walk(fields[1..], NextSize(fields[0], size), index + |out| - 1))
  }

  /** Padding before embedded types and at the end; the structure begins with its timestamp. */
  function Pad(fields: seq<Field>): Padded {
    var p := Walk(fields, TIMESTAMP, 0);
    var end := PaddingFor(p.size, p.index);
    Padded(p.fields + end, p.size + Gap(p.size), p.index + |end|)
  }

  /** The size the generator gives to one element of a field; for an embedded type, that of its own structure. */
  function ElementSize(f: Field): nat
    decreases Depth(f), 0
  {
    match f.kind
    case Builtin => SizeKey(f)
    case Embedded(children) => Pad(FillIn(Sort(children))).size
  }

  /** Fill in the element sizes. */
  function FillIn(fields: seq<Field>): (r: seq<Field>)
    ensures |r| == |fields|
    decreases DepthAll(fields), 1, |fields|
  {
    if fields == [] then []
    else
      var f := fields[0];
      [if f.isHeader then f else f.(sizeofFieldType := Some(ElementSize(f)))] + FillIn(fields[1..])
  }

  /** `add_padding_bytes`. */
  function AddPadding(fields: seq<Field>): Padded {
    Pad(FillIn(fields))
  }

  lemma {:induction false} DepthOfConcat(a: seq<Field>, b: seq<Field>)
    ensures DepthAll(a + b) == if DepthAll(a) > DepthAll(b) then DepthAll(a) else DepthAll(b)
    decreases a
  {
    if a == [] {
      assert a + b == b;
    } else {
      assert (a + b)[1..] == a[1..] + b;
      DepthOfConcat(a[1..], b);
    }
  }

  /** One turn of the padding loop. */
  lemma WalkFirst(fields: seq<Field>, size: nat, index: nat)
    returns (out: seq<Field>, size': nat, index': nat)
    requires fields != []
    ensures Walk(fields, size, index) == Behind(out, Walk(fields[1..], size', index'))
    ensures out == Emitted(fields[0], size, index) && size' == NextSize(fields[0], size)
    ensures index' == index + |out| - 1
    ensures DepthAll(out) == Depth(fields[0])
  {
    var f := fields[0];
    out, size' := Emitted(f, size, index), NextSize(f, size);
    index' := index + |out| - 1;
    DepthOfConcat(PaddingFor(size, index), [f]);
    assert [f][1..] == [];
  }

  lemma DepthBehind(f: Field, rest: seq<Field>, out: seq<Field>, p: Padded)
    requires DepthAll(out) == Depth(f) && DepthAll(p.fields) == DepthAll(rest)
    ensures DepthAll(Behind(out, p).fields) == DepthAll([f] + rest)
  {
    DepthOfConcat(out, p.fields);
    assert ([f] + rest)[1..] == rest;
  }

  lemma {:induction false} WalkKeepsDepth(fields: seq<Field>, size: nat, index: nat)
    ensures DepthAll(Walk(fields, size, index).fields) == DepthAll(fields)
    decreases fields
  {
    if fields == [] {
    } else {
      var out, size', index' := WalkFirst(fields, size, index);
      WalkKeepsDepth(fields[1..], size', index');
      DepthBehind(fields[0], fields[1..], out, Walk(fields[1..], size', index'));
      assert fields == [fields[0]] + fields[1..];
    }
  }

  lemma {:induction false} FillInKeepsDepth(fields: seq<Field>)
    ensures DepthAll(FillIn(fields)) == DepthAll(fields)
    decreases fields
  {
    if fields == [] {
    } else {
      FillInKeepsDepth(fields[1..]);
      assert FillIn(fields)[1..] == FillIn(fields[1..]);
      assert Depth(FillIn(fields)[0]) == Depth(fields[0]);
    }
  }

  lemma PaddingKeepsDepth(fields: seq<Field>)
    ensures DepthAll(AddPadding(fields).fields) == DepthAll(fields)
  {
    FillInKeepsDepth(fields);
    var p := Walk(FillIn(fields), TIMESTAMP, 0);
    WalkKeepsDepth(FillIn(fields), TIMESTAMP, 0);
    DepthOfConcat(p.fields, PaddingFor(p.size, p.index));
  }

  // ---------- The layout of the C compiler ----------

  /** Is this offset one a member with this alignment may have? */
  predicate Aligned(offset: nat, alignment: nat) {
    alignment > 0 ==> offset % alignment == 0
  }

  /** The next offset a member with this alignment may have. */
  function RoundUp(offset: nat, alignment: nat): (r: nat)
    ensures offset <= r
    ensures Aligned(offset, alignment) ==> r == offset
  {
    if Aligned(offset, alignment) then offset else offset + (alignment - offset % alignment)
  }

  /** The C type printed for a builtin type. */
  function CType(name: string): string {
    if name == "int8" then "int8_t"
    else if name == "int16" then "int16_t"
    else if name == "int32" then "int32_t"
    else if name == "int64" then "int64_t"
    else if name == "uint8" then "uint8_t"
    else if name == "uint16" then "uint16_t"
    else if name == "uint32" then "uint32_t"
    else if name == "uint64" then "uint64_t"
    else if name == "float32" then "float"
    else if name == "float64" then "double"
    else name
  }

  /** `sizeof` of the C types printed; other types are of no known size. */
  function CSizeof(ctype: string): nat {
    if ctype == "int64_t" || ctype == "uint64_t" || ctype == "double" then 8
    else if ctype == "int32_t" || ctype == "uint32_t" || ctype == "float" then 4
    else if ctype == "int16_t" || ctype == "uint16_t" then 2
    else if ctype == "int8_t" || ctype == "uint8_t" || ctype == "bool" || ctype == "char" then 1
    else 0
  }

  function CBuiltin(f: Field): nat {
    CSizeof(CType(BareName(f.typ)))
  }

  /** A builtin is aligned to its size, a message structure to its timestamp. */
  function CAlign(f: Field): nat {
    if f.kind.Builtin? then CBuiltin(f) else ALIGN_TO
  }

  /** The end of an array whose elements lie one behind the other. */
  function ArrayEnd(start: nat, element: nat, count: nat): nat
    decreases count
  {
    if count == 0 then start else ArrayEnd(start + element, element, count - 1)
  }

  /** Where a printed member begins behind one that ends at `offset`, and where it ends. */
  function CStart(f: Field, offset: nat): nat {
    RoundUp(offset, CAlign(f))
  }

  function CNext(f: Field, offset: nat): nat {
    if f.isHeader then offset
    else ArrayEnd(CStart(f, offset), if f.sizeofFieldType.Some? then f.sizeofFieldType.value else 0, Count(f))
  }

  /** Where the last member ends, if the one before the first ends at `offset`. Header fields are not printed. */
  function CEnd(fields: seq<Field>, offset: nat): nat
    decreases fields
  {
    if fields == [] then offset else CEnd(fields[1..], CNext(fields[0], offset))
  }

  /** `sizeof` of a structure with a 64-bit timestamp and these members. */
  function CStructSize(fields: seq<Field>): nat {
    RoundUp(CEnd(fields, TIMESTAMP), ALIGN_TO)
  }

  /** The printed members and the offsets the compiler gives them. */
  function CMembers(fields: seq<Field>, offset: nat): seq<(string, nat)>
    decreases fields
  {
    if fields == [] then []
    else CMember(fields[0], offset) + CMembers(fields[1..], CNext(fields[0], offset))
  }

  function CMember(f: Field, offset: nat): seq<(string, nat)> {
    if f.isHeader then [] else [(f.name, CStart(f, offset))]
  }

  /** Does the compiler leave no hole in front of any member? */
  predicate NoHoles(fields: seq<Field>, offset: nat)
    decreases fields
  {
    fields == [] ||
    ((fields[0].isHeader || CStart(fields[0], offset) == offset)
     && NoHoles(fields[1..], CNext(fields[0], offset)))
  }

  /** `sizeof` of a field's element type, for the structure that is printed for an embedded type. */
  function CSize(f: Field): nat
    decreases Depth(f), 0
  {
    match f.kind
    case Builtin => CBuiltin(f)
    case Embedded(children) =>
      PaddingKeepsDepth(Sort(children));
      CStructSize(CFillIn(AddPadding(Sort(children)).fields))
  }

  /** Fill in the sizes the compiler knows. */
  function CFillIn(fields: seq<Field>): (r: seq<Field>)
    ensures |r| == |fields|
    decreases DepthAll(fields), 1, |fields|
  {
    if fields == [] then []
    else
      var f := fields[0];
      [if f.isHeader then f else f.(sizeofFieldType := Some(CSize(f)))] + CFillIn(fields[1..])
  }

  // ---------- What the definitions must be like ----------

  /** Printed builtin types have a known size; embedded types are not named like builtins. */
  predicate Known(f: Field)
    decreases f
  {
    f.isHeader ||
    match f.kind
    case Builtin => SizeKey(f) > 0
    case Embedded(children) => SizeKey(f) == 0 && forall c :: c in children ==> Known(c)
  }

  predicate AllKnown(fields: seq<Field>) {
    forall f :: f in fields ==> Known(f)
  }

  lemma SortKeepsKnown(fields: seq<Field>)
    requires AllKnown(fields)
    ensures AllKnown(Sort(fields))
  {
    SortSorts(fields);
    forall f | f in Sort(fields) ensures f in fields {
      assert f in multiset(Sort(fields));
    }
  }
}
