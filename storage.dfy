/**
 * Field storage of webapp_proto_http.cpp: the append-only segment list of
 * `StorageInMem` and the `Field` wrapper around a shared storage.
 *
 * A storage's observable state is its name, its segments in append order
 * and its `USize` size counter; `Store` is that state as a value, and the
 * operations on it are the specification the in-place class `StorageInMem`
 * is proved against.  Inside a request a field holds its storage by value.
 */
module FieldStorage {
  import opened Text
  import opened HttpTables

  /** The bytes of a segment list, in order. */
  function Concat(segs: seq<seq<Byte>>): (r: seq<Byte>)
  {
    if segs == [] then [] else Concat(segs[..|segs| - 1]) + segs[|segs| - 1]
  }

  /** Appending a segment appends its bytes. */
  lemma ConcatSnoc(segs: seq<seq<Byte>>, s: seq<Byte>)
    ensures Concat(segs + [s]) == Concat(segs) + s
  {
    assert (segs + [s])[..|segs|] == segs;
  }

  /** The state of a `Storage`: its name, its segments and its `USize` size counter. */
  datatype Store = Store(name: string, segments: seq<seq<Byte>>, size: nat)

  /** The counter equals the number of stored bytes, modulo 2^32. */
  predicate StoreValid(s: Store)
  {
    s.size == |Concat(s.segments)| % USIZE_MOD
  }

  function StoreBytes(s: Store): seq<Byte>
  {
    Concat(s.segments)
  }

  /** `StorageInMem::GetStaticName`. */
  const IN_MEM_NAME := "StorageInMem"

  /** A new, empty storage. */
  function EmptyStore(name: string): (s: Store)
    ensures StoreValid(s) && StoreBytes(s) == []
  {
    Store(name, [], 0)
  }

  /** `Container::AppendData`: one more segment, the counter grows with wrap-around. */
  function StoreAppend(s: Store, data: seq<Byte>): (r: Store)
    requires |data| < USIZE_MOD
  {
    s.(segments := s.segments + [data], size := (s.size + |data|) % USIZE_MOD)
  }

  /** An append adds exactly its bytes at the end and keeps the counter right. */
  lemma AppendAddsBytes(s: Store, data: seq<Byte>)
    requires StoreValid(s) && |data| < USIZE_MOD
    ensures StoreValid(StoreAppend(s, data))
    ensures StoreBytes(StoreAppend(s, data)) == StoreBytes(s) + data
    ensures StoreAppend(s, data).name == s.name
  {
    ConcatSnoc(s.segments, data);
    var n := |Concat(s.segments)|;
    assert |Concat(s.segments + [data])| == n + |data|;
    assert (n % USIZE_MOD + |data|) % USIZE_MOD == (n + |data|) % USIZE_MOD;
  }

  /** A run of appends onto a storage, in order. */
  function AppendAll(s: Store, chunks: seq<seq<Byte>>): Store
    requires forall i :: 0 <= i < |chunks| ==> |chunks[i]| < USIZE_MOD
  {
    if chunks == [] then s else StoreAppend(AppendAll(s, chunks[..|chunks| - 1]), chunks[|chunks| - 1])
  }

  /**
   * Read-out after any run of appends to an empty storage is their
   * concatenation, and `Size()` their total length modulo 2^32.
   */
  lemma {:induction false} AppendAllBytes(name: string, chunks: seq<seq<Byte>>)
    requires forall i :: 0 <= i < |chunks| ==> |chunks[i]| < USIZE_MOD
    ensures StoreValid(AppendAll(EmptyStore(name), chunks))
    ensures StoreBytes(AppendAll(EmptyStore(name), chunks)) == Concat(chunks)
    ensures AppendAll(EmptyStore(name), chunks).size == |Concat(chunks)| % USIZE_MOD
  {
    if chunks != [] {
      var n := |chunks| - 1;
      AppendAllBytes(name, chunks[..n]);
      AppendAddsBytes(AppendAll(EmptyStore(name), chunks[..n]), chunks[n]);
      assert chunks[..n] + [chunks[n]] == chunks;
      ConcatSnoc(chunks[..n], chunks[n]);
    }
  }

  /** `StorageInMem`: the segment list, updated in place. */
  class StorageInMem {
    var segments: seq<seq<Byte>>
    var size: nat

    /** The state as a value. */
    function Value(): (s: Store)
      reads this
      ensures s.name == IN_MEM_NAME
    {
      Store(IN_MEM_NAME, segments, size)
    }

    ghost predicate Valid()
      reads this
    {
      StoreValid(Value())
    }

    constructor ()
      ensures Valid() && Value() == EmptyStore(IN_MEM_NAME)
    {
      segments := [];
      size := 0;
    }

    /** The copy constructor: a new storage holding the same segments; the source is untouched. */
    constructor Copy(src: StorageInMem)
      requires src.Valid()
      ensures Valid() && Value() == src.Value()
    {
      segments := [];
      size := 0;
      new;
      AssignFrom(src);
    }

    /** `Size()`. */
    function Size(): (n: nat)
      reads this
      requires Valid()
      ensures n == |StoreBytes(Value())| % USIZE_MOD
    {
      size
    }

    method Clear()
      modifies this
      ensures Valid() && Value() == EmptyStore(IN_MEM_NAME)
    {
      segments := [];
      size := 0;
    }

    /** `Append` always succeeds. */
    method Append(data: seq<Byte>) returns (ok: bool)
      requires Valid() && |data| < USIZE_MOD
      modifies this
      ensures ok && Valid() && Value() == StoreAppend(old(Value()), data)
      ensures StoreBytes(Value()) == StoreBytes(old(Value())) + data
    {
      AppendAddsBytes(Value(), data);
      segments := segments + [data];
      size := (size + |data|) % USIZE_MOD;
      ok := true;
    }

    /**
     * `Container::Assign`, behind `operator=`: empty this storage, then
     * append each segment of the source.  The source is read as the loop
     * runs, so assigning a storage to itself empties it.
     */
    method AssignFrom(src: StorageInMem)
      requires src.Valid()
      modifies this
      ensures Valid()
      ensures src != this ==> Value() == old(src.Value())
      ensures src == this ==> Value() == EmptyStore(IN_MEM_NAME)
    {
      size := 0;
      segments := [];
      var from := src.segments;
      var i := 0;
      while i < |from|
        invariant 0 <= i <= |from|
        invariant from == if src == this then [] else old(src.segments)
        invariant segments == from[..i]
        invariant size == |Concat(segments)| % USIZE_MOD
      {
        assert from[..i + 1] == from[..i] + [from[i]];
        ConcatSnoc(from[..i], from[i]);
        size := (size + |from[i]|) % USIZE_MOD;
        segments := segments + [from[i]];
        i := i + 1;
      }
      assert from[..|from|] == from;
    }

    /**
     * `operator=` as intended: assigning a storage to itself keeps its
     * contents; any other source is copied as `AssignFrom` does.
     */
    method Assign(src: StorageInMem)
      requires src.Valid()
      modifies this
      ensures Valid() && Value() == old(src.Value())
    {
      if src != this {
        AssignFrom(src);
      }
    }

    /**
     * The read-out (`operator()(std::ostream*)` and `operator()(std::string*)`):
     * every segment's bytes, in order.  The string form first sizes its
     * output to the counter, which is the byte count while that is below 2^32.
     */
    method ReadOut() returns (out: seq<Byte>)
      requires Valid()
      ensures out == StoreBytes(Value())
      ensures |out| < USIZE_MOD ==> |out| == Size()
    {
      out := [];
      var i := 0;
      while i < |segments|
        invariant 0 <= i <= |segments|
        invariant out == Concat(segments[..i])
      {
        assert segments[..i + 1] == segments[..i] + [segments[i]];
        ConcatSnoc(segments[..i], segments[i]);
        out := out + segments[i];
        i := i + 1;
      }
      assert segments[..|segments|] == segments;
    }
  }

  // ---------------------------------------------------------------------------
  // Request::Field

  /** `Request::Field`: a content type and a storage, which may be missing (null). */
  datatype Field = Field(ctype: ContentType, value: Option<Store>)

  /** A default-constructed field: no storage. */
  const NULL_FIELD := Field(ContentType(TextType, "", "", ""), None)

  predicate IsNull(f: Field)
  {
    f.value.None?
  }

  /** `Field::Size`: 0 for a null field. */
  function FieldSize(f: Field): (n: nat)
    ensures IsNull(f) ==> n == 0
    ensures !IsNull(f) ==> n == f.value.value.size
  {
    if f.value.None? then 0 else f.value.value.size
  }

  /** `Field::Append`: refused by a null field, otherwise the storage's `Append`. */
  function FieldAppend(f: Field, data: seq<Byte>): (r: (bool, Field))
    requires |data| < USIZE_MOD
    ensures r.0 <==> !IsNull(f)
    ensures IsNull(f) ==> r.1 == f
    ensures !IsNull(f) ==> r.1 == f.(value := Some(StoreAppend(f.value.value, data)))
  {
    if f.value.None? then (false, f) else (true, f.(value := Some(StoreAppend(f.value.value, data))))
  }

  /** `Field::Clear`: nothing for a null field. */
  function FieldClear(f: Field): (r: Field)
    ensures IsNull(f) ==> r == f
    ensures !IsNull(f) ==> r.value == Some(f.value.value.(segments := [], size := 0))
  {
    if f.value.None? then f else f.(value := Some(f.value.value.(segments := [], size := 0)))
  }

  /** `Field::UseStorage`: a missing storage is refused and leaves the field as it was. */
  function UseStorage(f: Field, s: Option<Store>): (r: (bool, Field))
    ensures r.0 <==> s.Some?
    ensures r.0 ==> r.1 == f.(value := s)
    ensures !r.0 ==> r.1 == f
  {
    if s.None? then (false, f) else (true, f.(value := s))
  }

  /** `Field::GetNameOfStorage`: the empty name for a null field. */
  function StorageName(f: Field): (name: string)
    ensures IsNull(f) ==> name == ""
    ensures !IsNull(f) ==> name == f.value.value.name
  {
    if f.value.None? then "" else f.value.value.name
  }

  /** `Field::get_value(std::string*)`: no value from a null field, else the stored bytes. */
  function FieldText(f: Field): (r: Option<string>)
    ensures r.None? <==> IsNull(f)
    ensures r.Some? ==> r.value == ToChars(StoreBytes(f.value.value))
  {
    if f.value.None? then None else Some(ToChars(StoreBytes(f.value.value)))
  }

  /** A field that holds a storage reports its bytes after an append; a null one stays null. */
  lemma FieldAppendRead(f: Field, data: seq<Byte>)
    requires |data| < USIZE_MOD && (IsNull(f) || StoreValid(f.value.value))
    ensures IsNull(f) ==> FieldText(FieldAppend(f, data).1).None? && FieldSize(FieldAppend(f, data).1) == 0
    ensures !IsNull(f) ==> FieldText(FieldAppend(f, data).1) == Some(ToChars(StoreBytes(f.value.value) + data))
  {
    if !IsNull(f) {
      AppendAddsBytes(f.value.value, data);
    }
  }
}
