/** Storage sizes (symtable.c with the signature queries of typechk.c) and whether the words the history
    runtime uses fit in the bytes the compiler reserves for them. */
module Sizes {
  import H = History

  const WORD := 4
  const CHAR := 1

  datatype Primitive = Void | Integer | Character | Str

  /** One entry of a type signature. The primitive or user-defined type comes last. */
  datatype Tag =
    | Address
    | Pointer
    | ArrayDim(size: nat)
    | History(depth: nat)
    | Prim(p: Primitive)
    | User(members: seq<TypeInfo>)

  datatype Decl = Variable | Function | UserType

  datatype TypeInfo = TypeInfo(decl: Decl, signature: seq<Tag>)

  predicate IsPrimitive(t: TypeInfo) {
    !t.decl.UserType? &&
    (|t.signature| == 1 || (|t.signature| == 2 && t.signature[0].Address?))
  }

  predicate IsStruct(t: TypeInfo) {
    |t.signature| > 0 && t.signature[|t.signature| - 1].User?
  }

  /** The sizes of the dimensions, in the order of the signature. */
  function Dimensions(s: seq<Tag>): seq<nat> {
    if s == [] then []
    else if s[0].ArrayDim? then [s[0].size] + Dimensions(s[1..])
    else Dimensions(s[1..])
  }

  predicate IsArray(t: TypeInfo) {
    |Dimensions(t.signature)| > 0
  }

  /** The depth of the first history tag, 0 when there is none. */
  function HistoryDepth(s: seq<Tag>): nat {
    if s == [] then 0 else if s[0].History? then s[0].depth else HistoryDepth(s[1..])
  }

  predicate IsHistory(s: seq<Tag>) {
    exists i :: 0 <= i < |s| && s[i].History?
  }

  function SizeofPrimitive(tag: Tag): int {
    if tag == Prim(Void) then -1
    else if tag == Prim(Character) then CHAR
    else WORD
  }

  function Product(ns: seq<nat>): nat {
    if ns == [] then 1 else ns[0] * Product(ns[1..])
  }

  function Total(ns: seq<nat>): nat {
    if ns == [] then 0 else ns[0] + Total(ns[1..])
  }

  /** get_num_elements adds the dimensions up. */
  function NumElements(t: TypeInfo): nat {
    Total(Dimensions(t.signature))
  }

  function SizeofArray(t: TypeInfo): int
    requires |t.signature| > 0
  {
    SizeofPrimitive(t.signature[|t.signature| - 1]) * Product(Dimensions(t.signature))
  }

  function SizeofType(t: TypeInfo): int
    requires |t.signature| > 0
    decreases t, 0
  {
    var last := t.signature[|t.signature| - 1];
    if IsPrimitive(t) && !IsStruct(t) then SizeofPrimitive(last)
    else if IsArray(t) then SizeofArray(t)
    else if t.decl.Function? then 0
    else if t.signature[0].Pointer? then WORD
    else if last.User? then SizeofMembers(last.members)
    else WORD
  }

  function SizeofMembers(ms: seq<TypeInfo>): int
    decreases ms, 0
  {
    if ms == [] then 0
    else (if |ms[0].signature| > 0 then EntrySize(ms[0]) else 0) + SizeofMembers(ms[1..])
  }

  function SizeofHistory(t: TypeInfo): int
    requires |t.signature| > 0
    decreases t, 1
  {
    if !IsHistory(t.signature) then 0
    else if IsArray(t) then
      NumElements(t) * SizeofPrimitive(t.signature[|t.signature| - 1]) * (HistoryDepth(t.signature) - 1)
    else HistoryDepth(t.signature) * SizeofType(t)
  }

  /** entry_size: what a scope reserves for a variable. */
  function EntrySize(t: TypeInfo): int
    requires |t.signature| > 0
    decreases t, 2
  {
    SizeofType(t) + SizeofHistory(t)
  }

  /** What the data segment holds for a global history variable: one word and its history (sparcgen.c). */
  function GlobalSize(t: TypeInfo): int
    requires |t.signature| > 0
  {
    WORD + SizeofHistory(t)
  }

  /** A scalar history variable of any primitive type. */
  function Scalar(depth: nat, p: Primitive): (t: TypeInfo)
    ensures |t.signature| == 2
  {
    TypeInfo(Variable, [History(depth), Prim(p)])
  }

  /** An array with the history on the elements (index-wise) or on the whole array (array-wise). */
  function HistoryArray(indexWise: bool, dims: seq<nat>, depth: nat, p: Primitive): (t: TypeInfo)
    ensures |t.signature| == |dims| + 2
  {
    var ds := seq(|dims|, i requires 0 <= i < |dims| => ArrayDim(dims[i]));
    TypeInfo(Variable, if indexWise then ds + [History(depth), Prim(p)] else [History(depth)] + ds + [Prim(p)])
  }

  lemma {:induction false} DimensionsOfConcat(a: seq<Tag>, b: seq<Tag>)
    ensures Dimensions(a + b) == Dimensions(a) + Dimensions(b)
  {
    if a == [] {
      assert a + b == b;
    } else {
      assert (a + b)[1..] == a[1..] + b;
      DimensionsOfConcat(a[1..], b);
    }
  }

  lemma {:induction false} DimensionsOfDims(dims: seq<nat>, tags: seq<Tag>)
    requires |tags| == |dims| && forall i :: 0 <= i < |dims| ==> tags[i] == ArrayDim(dims[i])
    ensures Dimensions(tags) == dims
  {
    if dims != [] {
      DimensionsOfDims(dims[1..], tags[1..]);
    }
  }

  lemma {:induction false} DepthBehindDims(tags: seq<Tag>, depth: nat, p: Primitive)
    requires forall i :: 0 <= i < |tags| ==> tags[i].ArrayDim?
    ensures HistoryDepth(tags + [History(depth), Prim(p)]) == depth
  {
    if tags != [] {
      assert (tags + [History(depth), Prim(p)])[1..] == tags[1..] + [History(depth), Prim(p)];
      DepthBehindDims(tags[1..], depth, p);
    } else {
      assert tags + [History(depth), Prim(p)] == [History(depth), Prim(p)];
    }
  }

  lemma HistoryArrayShape(indexWise: bool, dims: seq<nat>, depth: nat, p: Primitive)
    ensures var t := HistoryArray(indexWise, dims, depth, p);
      && Dimensions(t.signature) == dims && HistoryDepth(t.signature) == depth && IsHistory(t.signature)
      && t.signature[|t.signature| - 1] == Prim(p)
  {
    var ds: seq<Tag> := seq(|dims|, i requires 0 <= i < |dims| => ArrayDim(dims[i]));
    var t := HistoryArray(indexWise, dims, depth, p);
    DimensionsOfDims(dims, ds);
    assert Dimensions([Prim(p)]) == [] && [History(depth), Prim(p)][1..] == [Prim(p)];
    if indexWise {
      assert t.signature == ds + [History(depth), Prim(p)];
      DimensionsOfConcat(ds, [History(depth), Prim(p)]);
      assert Dimensions([History(depth), Prim(p)]) == [];
      DepthBehindDims(ds, depth, p);
      assert t.signature[|dims|] == History(depth);
    } else {
      assert t.signature[1..] == ds + [Prim(p)];
      DimensionsOfConcat(ds, [Prim(p)]);
      assert t.signature[0] == History(depth);
    }
  }

  /** The bytes of a history array: all its elements once, and its histories. */
  lemma ArrayBytes(indexWise: bool, dims: seq<nat>, depth: nat, p: Primitive)
    requires |dims| > 0
    ensures var t := HistoryArray(indexWise, dims, depth, p);
      && SizeofHistory(t) == Total(dims) * SizeofPrimitive(Prim(p)) * (depth - 1)
      && EntrySize(t) == SizeofPrimitive(Prim(p)) * Product(dims) + SizeofHistory(t)
  {
    HistoryArrayShape(indexWise, dims, depth, p);
    BytesByShape(HistoryArray(indexWise, dims, depth, p), dims, depth, p);
  }

  lemma BytesByShape(t: TypeInfo, dims: seq<nat>, depth: nat, p: Primitive)
    requires |t.signature| > 2 && t.signature[|t.signature| - 1] == Prim(p) && IsHistory(t.signature)
    requires Dimensions(t.signature) == dims && HistoryDepth(t.signature) == depth && |dims| > 0
    ensures SizeofHistory(t) == Total(dims) * SizeofPrimitive(Prim(p)) * (depth - 1)
    ensures EntrySize(t) == SizeofPrimitive(Prim(p)) * Product(dims) + SizeofHistory(t)
  {
  }

  lemma OneDimension(n: nat)
    ensures Product([n]) == n && Total([n]) == n
  {
    assert [n][1..] == [];
    assert Product([]) == 1 && Total([]) == 0;
  }

  /** A scalar takes a word whatever its type, so flat storage's depth + 1 words fit exactly, locally and
      in the data segment, and cyclic storage's depth words fit. */
  lemma ScalarStorage(depth: nat, p: Primitive)
    ensures EntrySize(Scalar(depth, p)) == GlobalSize(Scalar(depth, p)) == 4 * (depth + 1)
  {
    var t := Scalar(depth, p);
    assert t.signature[1..] == [Prim(p)] && [Prim(p)][1..] == [];
    assert t.signature[0] == History(depth) && IsHistory(t.signature);
    assert Dimensions([Prim(p)][1..]) == [];
    assert Dimensions(t.signature[1..]) == [];
    assert Dimensions(t.signature) == [];
    assert SizeofType(t) == WORD && HistoryDepth(t.signature) == depth;
    assert SizeofHistory(t) == depth * WORD;
  }

  /** Members that are scalar history variables of the given depths. */
  function Members(depths: seq<nat>, p: Primitive): (ms: seq<TypeInfo>)
    ensures |ms| == |depths|
  {
    seq(|depths|, i requires 0 <= i < |depths| => Scalar(depths[i], p))
  }

  lemma {:induction false} MemberBytes(depths: seq<nat>, p: Primitive)
    ensures SizeofMembers(Members(depths, p)) == 4 * (Total(depths) + |depths|)
    decreases |depths|
  {
    if depths != [] {
      var ms := Members(depths, p);
      assert ms[0] == Scalar(depths[0], p);
      assert ms[1..] == Members(depths[1..], p);
      ScalarStorage(depths[0], p);
      MemberBytes(depths[1..], p);
      hide EntrySize;
      assert SizeofMembers(ms) == EntrySize(ms[0]) + SizeofMembers(ms[1..]);
    }
  }

  /** A structure takes its members with their histories, and one with a history of its own that many times
      more. */
  lemma StructStorage(depths: seq<nat>, p: Primitive, depth: nat)
    ensures var members := User(Members(depths, p));
      var bytes := 4 * (Total(depths) + |depths|);
      && EntrySize(TypeInfo(Variable, [members])) == bytes
      && EntrySize(TypeInfo(Variable, [History(depth), members])) == bytes + depth * bytes
  {
    MemberBytes(depths, p);
    StructAlone(Members(depths, p));
    StructWithHistory(Members(depths, p), depth);
    hide *;
  }

  /** A pointer to a structure takes a word and a function nothing. */
  lemma StructAlone(ms: seq<TypeInfo>)
    ensures EntrySize(TypeInfo(Variable, [User(ms)])) == SizeofMembers(ms)
    ensures EntrySize(TypeInfo(Variable, [Pointer, User(ms)])) == 4 && EntrySize(TypeInfo(Function, [User(ms)])) == 0
  {
    WithoutHistory([User(ms)]);
    WithoutHistory([Pointer, User(ms)]);
  }

  lemma StructWithHistory(ms: seq<TypeInfo>, depth: nat)
    ensures EntrySize(TypeInfo(Variable, [History(depth), User(ms)])) == SizeofMembers(ms) + depth * SizeofMembers(ms)
  {
    var t := TypeInfo(Variable, [History(depth), User(ms)]);
    WithoutHistory([User(ms)]);
    assert t.signature[1..] == [User(ms)] && t.signature[0].History?;
    assert SizeofType(t) == SizeofMembers(ms);
    assert SizeofHistory(t) == HistoryDepth(t.signature) * SizeofType(t);
  }

  lemma WithoutHistory(s: seq<Tag>)
    requires 1 <= |s| <= 2 && s[|s| - 1].User? && (|s| == 2 ==> s[0].Pointer?)
    ensures Dimensions(s) == [] && !IsHistory(s)
  {
    assert Dimensions([s[|s| - 1]]) == [] by { assert [s[|s| - 1]][1..] == []; }
    if |s| == 2 {
      assert s[1..] == [s[1]];
    }
  }

  /** The words the array stores use: `depth` blocks of all the elements. */
  function BlockBytes(dims: seq<nat>, depth: nat): int {
    WORD * (Product(dims) * depth)
  }

  /** A one-dimensional history array gets exactly `depth` blocks of its elements, and the words the stores
      use fit exactly when those are words. A void element takes -1 bytes. */
  lemma ArrayStorage(indexWise: bool, n: nat, depth: nat, p: Primitive)
    requires depth >= 1
    ensures EntrySize(HistoryArray(indexWise, [n], depth, p)) ==
      (if p.Integer? || p.Str? then 4 else if p.Character? then 1 else -1) * (n * depth)
    ensures BlockBytes([n], depth) == 4 * (n * depth)
    ensures BlockBytes([n], depth) <= EntrySize(HistoryArray(indexWise, [n], depth, p)) <==>
      p.Integer? || p.Str? || n == 0
  {
    ArrayBytes(indexWise, [n], depth, p);
    OneDimension(n);
    var e := SizeofPrimitive(Prim(p));
    Distribute(e, n, depth - 1);
    SmallElements(e, n * depth);
    ManyBlocks(n, depth);
    hide EntrySize, SizeofHistory, SizeofPrimitive, Product, Total, HistoryArray;
  }

  lemma Distribute(e: int, n: int, k: int)
    ensures e * n + n * e * k == e * (n * (k + 1))
  {
    assert n * (k + 1) == n * k + n;
    assert n * e * k == e * (n * k);
  }

  lemma SmallElements(e: int, m: nat)
    requires e == WORD || e == CHAR || e == -1
    ensures WORD * m <= e * m <==> e == WORD || m == 0
  {
  }

  lemma ManyBlocks(n: nat, depth: nat)
    requires depth >= 1
    ensures n * depth == 0 <==> n == 0
  {
    H.Scaled(1, depth, n);
  }

  /** Histories of `s` elements where `p` are needed. */
  lemma Histories(p: nat, s: nat, k: nat)
    ensures p * k <= s * k <==> k == 0 || p <= s
  {
    if p <= s {
      H.Scaled(p, s, k);
    } else if k > 0 {
      H.Scaled(s + 1, p, k);
      assert (s + 1) * k == s * k + k;
    }
  }

  lemma HistoriesInWords(p: nat, s: nat, depth: nat)
    requires depth >= 1
    ensures WORD * (p * depth) <= WORD * p + s * WORD * (depth - 1) <==> depth == 1 || p <= s
  {
    var k := depth - 1;
    Histories(p, s, k);
    assert p * depth == p * k + p;
    assert s * WORD * k == WORD * (s * k);
  }

  /** With several dimensions the elements are added up instead of multiplied: word-sized elements fit
      exactly when that makes no difference. */
  lemma MultiDimensionalStorage(indexWise: bool, dims: seq<nat>, depth: nat)
    requires depth >= 1 && |dims| > 0
    ensures BlockBytes(dims, depth) <= EntrySize(HistoryArray(indexWise, dims, depth, Integer)) <==>
      depth == 1 || Product(dims) <= Total(dims)
  {
    hide EntrySize, SizeofHistory, Product, Total, HistoryArray;
    ArrayBytes(indexWise, dims, depth, Integer);
    HistoriesInWords(Product(dims), Total(dims), depth);
  }

  /** Two dimensions: the stores use the product of words, and they fit only by chance. */
  lemma TwoDimensionalStorage(indexWise: bool, a: nat, b: nat, depth: nat)
    requires depth >= 1
    ensures BlockBytes([a, b], depth) == 4 * ((a * b) * depth)
    ensures EntrySize(HistoryArray(indexWise, [a, b], depth, Integer)) == 4 * (a * b) + 4 * ((a + b) * (depth - 1))
    ensures BlockBytes([a, b], depth) <= EntrySize(HistoryArray(indexWise, [a, b], depth, Integer)) <==>
      depth == 1 || a * b <= a + b
  {
    TwoDimensions(a, b);
    assert SizeofPrimitive(Prim(Integer)) == WORD == 4;
    hide *;
    MultiDimensionalStorage(indexWise, [a, b], depth);
    IntegerBytes(indexWise, [a, b], depth);
    assert BlockBytes([a, b], depth) == 4 * (Product([a, b]) * depth) by { BlocksInWords([a, b], depth); }
  }

  lemma BlocksInWords(dims: seq<nat>, depth: nat)
    ensures BlockBytes(dims, depth) == 4 * (Product(dims) * depth)
  {
  }

  lemma TwoDimensions(a: nat, b: nat)
    ensures Product([a, b]) == a * b && Total([a, b]) == a + b
  {
    assert [a, b][1..] == [b];
    OneDimension(b);
  }

  /** The reserved bytes of an array of integers. */
  lemma IntegerBytes(indexWise: bool, dims: seq<nat>, depth: nat)
    requires |dims| > 0
    ensures EntrySize(HistoryArray(indexWise, dims, depth, Integer)) ==
      4 * Product(dims) + 4 * (Total(dims) * (depth - 1))
  {
    ArrayBytes(indexWise, dims, depth, Integer);
    assert SizeofPrimitive(Prim(Integer)) == 4;
    hide *;
    Scaled4(Total(dims), depth - 1);
  }

  lemma Scaled4(a: int, k: int)
    ensures a * 4 * k == 4 * (a * k)
  {
  }

  /** In the data segment an array's first block is one word only: it fits exactly up to one element. */
  lemma GlobalArrayStorage(indexWise: bool, n: nat, depth: nat)
    requires depth >= 1
    ensures BlockBytes([n], depth) <= GlobalSize(HistoryArray(indexWise, [n], depth, Integer)) <==> n <= 1
  {
    ArrayBytes(indexWise, [n], depth, Integer);
    OneDimension(n);
    Distribute(WORD, n, depth - 1);
    hide EntrySize, SizeofHistory, Product, Total, HistoryArray;
  }
}
