/**
 * The chunk reference-count object class: a content-addressed chunk object
 * keeps, in one extended attribute, the set of source objects that refer to
 * it. The methods add a reference (creating the chunk on first use), drop
 * one (removing the chunk with the last), replace the whole set and read it.
 *
 * Each method is a class method over the chunk object's state and is proved
 * against a function giving the object and the return code it leaves; the
 * properties of those functions are the lemmas at the end.
 */
module ClsCas {
  import opened Wrappers
  import opened Bytes
  import Errno

  /**
   * A referring object (hobject_t) with every field its equality compares:
   * the object name, the locator key, the snapshot, the hash, the max flag,
   * the pool and the namespace. A clone and its head differ in the snapshot,
   * so each holds its own reference.
   */
  datatype Source = Source(oid: Bytes, key: Bytes, snap: uint64, hash: uint32, max: bool, pool: int, nspace: Bytes)

  /** The refcount attribute: absent, decodable into a set of references, or not decodable. */
  datatype Attr = NoAttr | Refs(refs: set<Source>) | Undecodable

  /** The chunk object: whether it exists, its data and its refcount attribute. */
  datatype Chunk = Chunk(present: bool, data: Bytes, attr: Attr)

  /** The return code a method hands back and the object it leaves. */
  datatype Outcome = Outcome(r: int, chunk: Chunk)

  /** The bit of create_or_get_ref's flags asking for a byte-for-byte comparison with the stored data. */
  const FLAG_VERIFY: uint64 := 1

  /** The decoded inputs; a bufferlist that does not decode is None. */
  datatype CreateOrGetRefOp = CreateOrGetRefOp(source: Source, flags: uint64, data: Bytes)
  datatype GetRefOp = GetRefOp(source: Source)
  datatype PutRefOp = PutRefOp(source: Source)
  datatype SetRefsOp = SetRefsOp(refs: set<Source>)

  /** A removed object has no data and no attributes. */
  const Absent: Chunk := Chunk(false, [], NoAttr)

  /** The object store never holds data or attributes for a missing object. */
  predicate WellFormed(c: Chunk)
  {
    !c.present ==> c == Absent
  }

  /** `flags & FLAG_VERIFY` is set. */
  predicate Verifies(flags: uint64)
  {
    flags % 2 == FLAG_VERIFY
  }

  // ---------------------------------------------------------------------
  // What each method returns and leaves
  // ---------------------------------------------------------------------

  /**
   * chunk_read_refcount: the stored references, none when the attribute is
   * missing, -ENOENT for a missing object and -EIO when the attribute does
   * not decode.
   */
  function Refcount(c: Chunk): (res: (int, set<Source>))
    ensures res.0 == 0 || res.0 == -Errno.ENOENT || res.0 == -Errno.EIO
    ensures res.0 != 0 ==> res.1 == {}
  {
    if !c.present then (-Errno.ENOENT, {})
    else match c.attr
      case NoAttr => (0, {})
      case Refs(s) => (0, s)
      case Undecodable => (-Errno.EIO, {})
  }

  /** cls_cxx_remove: a missing object cannot be removed. */
  function Removed(c: Chunk): Outcome
  {
    if c.present then Outcome(0, Absent) else Outcome(-Errno.ENOENT, c)
  }

  /** chunk_create_or_get_ref */
  function AfterCreateOrGetRef(c: Chunk, input: Option<CreateOrGetRefOp>): Outcome
  {
    if input.None? then Outcome(-Errno.EINVAL, c)
    else
      var op := input.value;
      var (ret, refs) := Refcount(c);
      if ret == -Errno.ENOENT then Outcome(0, Chunk(true, op.data, Refs({op.source})))
      else if ret < 0 then Outcome(ret, c)
      else if Verifies(op.flags) && c.data != op.data then Outcome(-Errno.ENOMSG, c)
      else if op.source in refs then Outcome(-Errno.EEXIST, c)
      else Outcome(0, c.(attr := Refs(refs + {op.source})))
  }

  /** chunk_get_ref */
  function AfterGetRef(c: Chunk, input: Option<GetRefOp>): Outcome
  {
    if input.None? then Outcome(-Errno.EINVAL, c)
    else
      var (ret, refs) := Refcount(c);
      if ret < 0 then Outcome(ret, c)
      else if input.value.source in refs then Outcome(-Errno.EEXIST, c)
      else Outcome(0, c.(attr := Refs(refs + {input.value.source})))
  }

  /** chunk_put_ref */
  function AfterPutRef(c: Chunk, input: Option<PutRefOp>): Outcome
  {
    if input.None? then Outcome(-Errno.EINVAL, c)
    else
      var (ret, refs) := Refcount(c);
      if ret < 0 then Outcome(ret, c)
      else if refs == {} then Outcome(-Errno.ENOLINK, c)
      else if input.value.source !in refs then Outcome(-Errno.ENOLINK, c)
      else if refs - {input.value.source} == {} then Removed(c)
      else Outcome(0, c.(attr := Refs(refs - {input.value.source})))
  }

  /** chunk_set_refs: storing the attribute creates a missing object, without data. */
  function AfterSetRefs(c: Chunk, input: Option<SetRefsOp>): Outcome
  {
    if input.None? then Outcome(-Errno.EINVAL, c)
    else if input.value.refs == {} then Removed(c)
    else Outcome(0, Chunk(true, c.data, Refs(input.value.refs)))
  }

  /** chunk_read_refs: the return code and the references it encodes into the output. */
  function ReadRefsOf(c: Chunk): (int, set<Source>)
  {
    Refcount(c)
  }

  // ---------------------------------------------------------------------
  // The object class
  // ---------------------------------------------------------------------

  /**
   * The chunk object one call runs against. The object-store calls the
   * methods make (getxattr, setxattr, write_full, read, remove) are the
   * small methods below; their I/O failures are not modelled.
   */
  class ChunkObject {
    var present: bool
    var data: Bytes
    var attr: Attr

    function State(): (c: Chunk)
      reads this
      ensures c.present == present && c.data == data && c.attr == attr
    {
      Chunk(present, data, attr)
    }

    ghost predicate Valid()
      reads this
    {
      WellFormed(State())
    }

    constructor (c: Chunk)
      requires WellFormed(c)
      ensures Valid() && State() == c
    {
      present, data, attr := c.present, c.data, c.attr;
    }

    /** cls_cxx_getxattr of the refcount attribute. */
    method GetXattr() returns (ret: int, a: Attr)
      ensures !present ==> ret == -Errno.ENOENT
      ensures present && attr == NoAttr ==> ret == -Errno.ENODATA
      ensures present && attr != NoAttr ==> ret == 0 && a == attr
    {
      if !present {
        return -Errno.ENOENT, NoAttr;
      }
      if attr == NoAttr {
        return -Errno.ENODATA, NoAttr;
      }
      return 0, attr;
    }

    /** cls_cxx_setxattr of the refcount attribute, which creates a missing object. */
    method SetXattr(refs: set<Source>)
      modifies this
      ensures present && attr == Refs(refs) && data == old(data)
    {
      present := true;
      attr := Refs(refs);
    }

    /** cls_cxx_write_full: the object's data becomes d. */
    method WriteFull(d: Bytes)
      modifies this
      ensures present && data == d && attr == old(attr)
    {
      present := true;
      data := d;
    }

    /** cls_cxx_read of the whole object. */
    method Read() returns (d: Bytes)
      ensures d == data
    {
      d := data;
    }

    /** cls_cxx_remove */
    method Remove() returns (ret: int)
      modifies this
      ensures Outcome(ret, State()) == Removed(old(State()))
    {
      if !present {
        return -Errno.ENOENT;
      }
      present, data, attr := false, [], NoAttr;
      ret := 0;
    }

    /** chunk_read_refcount: a missing attribute reads as no references. */
    method ReadRefcount() returns (ret: int, refs: set<Source>)
      ensures (ret, refs) == Refcount(State())
    {
      refs := {};
      var got, a := GetXattr();
      if got == -Errno.ENODATA {
        return 0, refs;
      }
      if got < 0 {
        return got, refs;
      }
      match a {
        case NoAttr =>
          ret := 0;
        case Refs(s) =>
          refs := s;
          ret := 0;
        case Undecodable =>
          ret := -Errno.EIO;
      }
    }

    /**
     * chunk_create_or_get_ref: a missing chunk is written with the data and
     * its first reference; an existing one, when the data agrees or is not
     * compared, gains the reference unless it already holds it.
     */
    method CreateOrGetRef(input: Option<CreateOrGetRefOp>) returns (r: int)
      requires Valid()
      modifies this
      ensures Valid()
      ensures Outcome(r, State()) == AfterCreateOrGetRef(old(State()), input)
    {
      if input.None? {
        return -Errno.EINVAL;
      }
      var op := input.value;
      var ret, refs := ReadRefcount();
      if ret == -Errno.ENOENT {
        WriteFull(op.data);
        refs := refs + {op.source};
        SetXattr(refs);
      } else if ret < 0 {
        return ret;
      } else {
        if Verifies(op.flags) {
          var stored := Read();
          if stored != op.data {
            return -Errno.ENOMSG;
          }
        }
        if op.source in refs {
          return -Errno.EEXIST;
        }
        refs := refs + {op.source};
        SetXattr(refs);
      }
      r := 0;
    }

    /** chunk_get_ref: an existing chunk gains the reference unless it already holds it. */
    method GetRef(input: Option<GetRefOp>) returns (r: int)
      requires Valid()
      modifies this
      ensures Valid()
      ensures Outcome(r, State()) == AfterGetRef(old(State()), input)
    {
      if input.None? {
        return -Errno.EINVAL;
      }
      var ret, refs := ReadRefcount();
      if ret < 0 {
        return ret;
      }
      if input.value.source in refs {
        return -Errno.EEXIST;
      }
      refs := refs + {input.value.source};
      SetXattr(refs);
      r := 0;
    }

    /** chunk_put_ref: drops a held reference and removes the chunk with the last one. */
    method PutRef(input: Option<PutRefOp>) returns (r: int)
      requires Valid()
      modifies this
      ensures Valid()
      ensures Outcome(r, State()) == AfterPutRef(old(State()), input)
    {
      if input.None? {
        return -Errno.EINVAL;
      }
      var ret, refs := ReadRefcount();
      if ret < 0 {
        return ret;
      }
      if refs == {} {
        return -Errno.ENOLINK;
      }
      if input.value.source !in refs {
        return -Errno.ENOLINK;
      }
      refs := refs - {input.value.source};
      if refs == {} {
        r := Remove();
        return;
      }
      SetXattr(refs);
      r := 0;
    }

    /** chunk_set_refs: replaces the references; an empty set removes the chunk. */
    method SetRefs(input: Option<SetRefsOp>) returns (r: int)
      requires Valid()
      modifies this
      ensures Valid()
      ensures Outcome(r, State()) == AfterSetRefs(old(State()), input)
    {
      if input.None? {
        return -Errno.EINVAL;
      }
      if input.value.refs == {} {
        r := Remove();
        return;
      }
      SetXattr(input.value.refs);
      r := 0;
    }

    /** chunk_read_refs: the stored references, copied into the reply. */
    method ReadRefs() returns (r: int, out: set<Source>)
      ensures (r, out) == ReadRefsOf(State())
    {
      var ret, refs := ReadRefcount();
      if ret < 0 {
        return ret, {};
      }
      out := {};
      var rest := refs;
      while rest != {}
        invariant out + rest == refs && out !! rest
        decreases |rest|
      {
        var p :| p in rest;
        out := out + {p};
        rest := rest - {p};
      }
      r := 0;
    }
  }

  // ---------------------------------------------------------------------
  // Properties
  // ---------------------------------------------------------------------

  /** The stored references, when the object exists and its attribute decodes. */
  predicate Holds(c: Chunk, refs: set<Source>)
  {
    c.present && (c.attr == Refs(refs) || (c.attr == NoAttr && refs == {}))
  }

  /** No chunk keeps an empty reference set: the methods remove it instead. */
  predicate NoEmptyRefs(c: Chunk)
  {
    c.attr != Refs({})
  }

  /** A missing attribute reads as no references; a decodable one as exactly its set. */
  lemma RefcountReadsStored(c: Chunk, refs: set<Source>)
    ensures Refcount(c) == (0, refs) <==> Holds(c, refs)
    ensures ReadRefsOf(c) == Refcount(c)
  {
  }

  /** Input that does not decode is refused with -EINVAL before the object is looked at. */
  lemma DecodeFailureChangesNothing(c: Chunk)
    ensures AfterCreateOrGetRef(c, None) == Outcome(-Errno.EINVAL, c)
    ensures AfterGetRef(c, None) == Outcome(-Errno.EINVAL, c)
    ensures AfterPutRef(c, None) == Outcome(-Errno.EINVAL, c)
    ensures AfterSetRefs(c, None) == Outcome(-Errno.EINVAL, c)
  {
  }

  /** create_or_get_ref on a missing chunk writes the data and records the source as the one reference. */
  lemma CreateOnMissing(c: Chunk, op: CreateOrGetRefOp)
    requires !c.present
    ensures AfterCreateOrGetRef(c, Some(op)) == Outcome(0, Chunk(true, op.data, Refs({op.source})))
  {
  }

  /** With FLAG_VERIFY, data that differs from the stored chunk is refused and nothing changes. */
  lemma VerifyMismatchRefused(c: Chunk, op: CreateOrGetRefOp, refs: set<Source>)
    requires Holds(c, refs) && Verifies(op.flags) && c.data != op.data
    ensures AfterCreateOrGetRef(c, Some(op)) == Outcome(-Errno.ENOMSG, c)
  {
  }

  /**
   * Taking a reference on an existing chunk (create_or_get_ref with the data
   * agreeing or not compared, or get_ref): -EEXIST with nothing changed
   * exactly when the source is already held, and otherwise the set gains
   * exactly that source and nothing else changes.
   */
  lemma TakeRefExact(c: Chunk, refs: set<Source>, source: Source, flags: uint64, d: Bytes)
    requires Holds(c, refs)
    requires Verifies(flags) ==> c.data == d
    ensures var o := AfterCreateOrGetRef(c, Some(CreateOrGetRefOp(source, flags, d)));
            (o.r == -Errno.EEXIST <==> source in refs)
            && (o.r == -Errno.EEXIST ==> o.chunk == c)
            && (o.r != -Errno.EEXIST ==> o.r == 0 && o.chunk == c.(attr := Refs(refs + {source})))
    ensures AfterGetRef(c, Some(GetRefOp(source))) == AfterCreateOrGetRef(c, Some(CreateOrGetRefOp(source, flags, d)))
  {
  }

  /** get_ref on a missing chunk or an undecodable attribute fails with the read's error and changes nothing. */
  lemma GetRefNeedsChunk(c: Chunk, op: GetRefOp)
    requires !c.present || c.attr == Undecodable
    ensures AfterGetRef(c, Some(op)) == Outcome(if c.present then -Errno.EIO else -Errno.ENOENT, c)
  {
  }

  /** put_ref refuses with -ENOLINK, changing nothing, exactly when the source is not held. */
  lemma PutRefUnheld(c: Chunk, refs: set<Source>, source: Source)
    requires Holds(c, refs)
    ensures AfterPutRef(c, Some(PutRefOp(source))).r == -Errno.ENOLINK <==> source !in refs
    ensures source !in refs ==> AfterPutRef(c, Some(PutRefOp(source))).chunk == c
  {
  }

  /**
   * put_ref of a held reference succeeds; it removes the chunk exactly when
   * that was the last reference and otherwise stores the old set without
   * the source.
   */
  lemma PutRefHeld(c: Chunk, refs: set<Source>, source: Source)
    requires Holds(c, refs) && source in refs
    ensures var o := AfterPutRef(c, Some(PutRefOp(source)));
            o.r == 0
            && (!o.chunk.present <==> refs == {source})
            && (!o.chunk.present ==> o.chunk == Absent)
            && (o.chunk.present ==> o.chunk == c.(attr := Refs(refs - {source})))
  {
    if refs - {source} == {} {
      assert refs == {source};
    }
  }

  /** set_refs with no references removes the chunk; otherwise it stores exactly the given set. */
  lemma SetRefsStores(c: Chunk, refs: set<Source>)
    requires WellFormed(c)
    ensures var o := AfterSetRefs(c, Some(SetRefsOp(refs)));
            (refs == {} ==> o.chunk == Absent && (o.r == 0 <==> c.present))
            && (refs != {} ==> o.r == 0 && Holds(o.chunk, refs) && o.chunk.data == c.data)
  {
  }

  /**
   * Every method keeps the object well formed and never leaves an empty
   * reference set behind on an object that had none.
   */
  lemma MethodsKeepInvariant(c: Chunk, i1: Option<CreateOrGetRefOp>, i2: Option<GetRefOp>,
                             i3: Option<PutRefOp>, i4: Option<SetRefsOp>)
    requires WellFormed(c) && NoEmptyRefs(c)
    ensures WellFormed(AfterCreateOrGetRef(c, i1).chunk) && NoEmptyRefs(AfterCreateOrGetRef(c, i1).chunk)
    ensures WellFormed(AfterGetRef(c, i2).chunk) && NoEmptyRefs(AfterGetRef(c, i2).chunk)
    ensures WellFormed(AfterPutRef(c, i3).chunk) && NoEmptyRefs(AfterPutRef(c, i3).chunk)
    ensures WellFormed(AfterSetRefs(c, i4).chunk) && NoEmptyRefs(AfterSetRefs(c, i4).chunk)
  {
  }

  /**
   * A reference taken and dropped again leaves a chunk that already had
   * other references as it was.
   */
  lemma GetThenPutRestores(c: Chunk, refs: set<Source>, source: Source)
    requires Holds(c, refs) && refs != {} && source !in refs
    ensures var got := AfterGetRef(c, Some(GetRefOp(source)));
            got.r == 0 && AfterPutRef(got.chunk, Some(PutRefOp(source))) == Outcome(0, c)
  {
    var got := AfterGetRef(c, Some(GetRefOp(source)));
    assert got.chunk.attr == Refs(refs + {source});
    assert refs + {source} - {source} == refs;
    assert refs + {source} - {source} != {};
  }
}
