/** Pass 1 of the loader (`countSections`): the walk over size-prefixed
    sections. */
module Sections {
  import opened Words
  import opened Layout

  /** How the walk ends: the list of section offsets, a recorded error, or a
      zero-size section at which the loop never advances. */
  datatype Walk = Sections(offsets: seq<nat>) | Bad(err: VmError) | Loops(at: nat)

  predicate Aligned(n: int) {
    n % 8 == 0
  }

  /** The walk from byte offset `p` to the end of the buffer. */
  function CountFrom(buf: seq<Byte>, p: nat): (w: Walk)
    requires Aligned(|buf|) && Aligned(p)
    ensures w.Bad? ==> w.err.code in {1002, 1003} && w.err.offset >= p
    ensures w.Bad? && w.err.code == 1002 ==>
              w.err.offset + SectionHeaderSize <= |buf| && !Aligned(SizeAt(buf, w.err.offset))
    ensures w.Bad? && w.err.code == 1003 ==> w.err.offset > |buf|
    ensures w.Loops? ==> p <= w.at && w.at + SectionHeaderSize <= |buf| && SizeAt(buf, w.at) == 0
    decreases |buf| - p
  {
    if p < |buf| then
      var size := SizeAt(buf, p);
      if !Aligned(size) then Bad(SetVMImgError(1002, Some(p)))
      else if size == 0 then Loops(p)
      else
        match CountFrom(buf, p + size)
        case Sections(rest) => Sections([p] + rest)
        case other => other
    else if p == |buf| then Sections([])
    else Bad(SetVMImgError(1003, Some(p)))
  }

  /** `countSections`. */
  function CountSections(buf: seq<Byte>): (w: Walk)
    requires Aligned(|buf|)
  {
    CountFrom(buf, 0)
  }

  /** Reference definition: `offs` lists consecutive sections, starting at
      `p`, each of a non-zero multiple-of-8 size, ending exactly at the end
      of the buffer. */
  ghost predicate IsWalkFrom(buf: seq<Byte>, p: nat, offs: seq<nat>)
    decreases |offs|
  {
    if |offs| == 0 then p == |buf|
    else
      && offs[0] == p
      && p + SectionHeaderSize <= |buf|
      && Aligned(SizeAt(buf, p))
      && SizeAt(buf, p) > 0
      && IsWalkFrom(buf, p + SizeAt(buf, p), offs[1..])
  }

  /** The counting walk succeeds exactly on the reference walks. */
  lemma {:induction false} CountFromIsWalk(buf: seq<Byte>, p: nat, offs: seq<nat>)
    requires Aligned(|buf|) && Aligned(p)
    ensures CountFrom(buf, p) == Sections(offs) <==> IsWalkFrom(buf, p, offs)
    decreases |buf| - p, |offs|
  {
    if p < |buf| {
      var size := SizeAt(buf, p);
      if Aligned(size) && size > 0 {
        var w := CountFrom(buf, p + size);
        if w.Sections? {
          CountFromIsWalk(buf, p + size, w.offsets);
          if |offs| > 0 {
            CountFromIsWalk(buf, p + size, offs[1..]);
            assert offs == [offs[0]] + offs[1..];
          }
        } else if |offs| > 0 {
          CountFromIsWalk(buf, p + size, offs[1..]);
        }
      }
    }
  }

  /** Reference definition: `q` is reached from `p` by following sections,
      each starting with a header inside the buffer and advancing by its
      non-zero multiple-of-8 size. */
  ghost predicate Reaches(buf: seq<Byte>, p: nat, q: nat)
    decreases q - p
  {
    || p == q
    || (&& p < q
        && p + SectionHeaderSize <= |buf|
        && Aligned(SizeAt(buf, p))
        && SizeAt(buf, p) > 0
        && Reaches(buf, p + SizeAt(buf, p), q))
  }

  /** A failing walk fails at the cursor the chain of sections reaches: 1002
      exactly at a reached header with a misaligned size, 1003 exactly at a
      reached cursor past the end, and the endless loop exactly at a reached
      header of size 0. */
  lemma {:induction false} CountFromFailsOnChain(buf: seq<Byte>, p: nat, q: nat)
    requires Aligned(|buf|) && Aligned(p)
    ensures CountFrom(buf, p) == Bad(VmError(1002, q)) <==>
              Reaches(buf, p, q) && q + SectionHeaderSize <= |buf| && !Aligned(SizeAt(buf, q))
    ensures CountFrom(buf, p) == Bad(VmError(1003, q)) <==> Reaches(buf, p, q) && q > |buf|
    ensures CountFrom(buf, p) == Loops(q) <==>
              Reaches(buf, p, q) && q + SectionHeaderSize <= |buf| && SizeAt(buf, q) == 0
    decreases |buf| - p
  {
    if p < |buf| {
      var size := SizeAt(buf, p);
      if Aligned(size) && size > 0 {
        CountFromFailsOnChain(buf, p + size, q);
        if Reaches(buf, p + size, q) {
          assert p + size <= q;
        }
      }
    }
  }

  /** Every section of a successful walk lies inside the buffer, is at least
      a header long and is followed by the next one. */
  ghost predicate WellFormed(buf: seq<Byte>, offs: seq<nat>) {
    && (forall k :: 0 <= k < |offs| ==>
          && Aligned(offs[k])
          && offs[k] + SectionHeaderSize <= |buf|
          && SectionHeaderSize <= SizeAt(buf, offs[k])
          && Aligned(SizeAt(buf, offs[k]))
          && offs[k] + SizeAt(buf, offs[k]) <= |buf|)
    && (forall k :: 0 <= k < |offs| - 1 ==> offs[k + 1] == offs[k] + SizeAt(buf, offs[k]))
    && (|offs| == 0 <==> |buf| == 0)
    && (|offs| > 0 ==> offs[0] == 0 && offs[|offs| - 1] + SizeAt(buf, offs[|offs| - 1]) == |buf|)
  }

  lemma {:induction false} WalkFromWellFormed(buf: seq<Byte>, p: nat, offs: seq<nat>)
    requires Aligned(|buf|) && Aligned(p)
    requires CountFrom(buf, p) == Sections(offs)
    ensures forall k :: 0 <= k < |offs| ==>
              && Aligned(offs[k])
              && offs[k] + SectionHeaderSize <= |buf|
              && SectionHeaderSize <= SizeAt(buf, offs[k])
              && Aligned(SizeAt(buf, offs[k]))
              && offs[k] + SizeAt(buf, offs[k]) <= |buf|
    ensures forall k :: 0 <= k < |offs| - 1 ==> offs[k + 1] == offs[k] + SizeAt(buf, offs[k])
    ensures |offs| == 0 <==> p == |buf|
    ensures |offs| > 0 ==> offs[0] == p && offs[|offs| - 1] + SizeAt(buf, offs[|offs| - 1]) == |buf|
    decreases |buf| - p
  {
    if p < |buf| {
      var size := SizeAt(buf, p);
      var rest := offs[1..];
      WalkFromWellFormed(buf, p + size, rest);
      assert offs == [p] + rest;
    }
  }

  /** A successful count yields a well-formed section list. */
  lemma CountSectionsWellFormed(buf: seq<Byte>)
    requires Aligned(|buf|)
    requires CountSections(buf).Sections?
    ensures WellFormed(buf, CountSections(buf).offsets)
  {
    WalkFromWellFormed(buf, 0, CountSections(buf).offsets);
  }
}
