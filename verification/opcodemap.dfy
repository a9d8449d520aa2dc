/** The opcode-name-map section: NUL-terminated names resolved by exact
    match against the compiled-in opcode table. */
module OpcodeMap {
  import opened Words
  import opened Layout

  /** The number of zero bytes in `buf[lo..hi]`. */
  function CountZeros(buf: seq<Byte>, lo: nat, hi: nat): (n: nat)
    requires lo <= hi <= |buf|
    ensures n <= hi - lo
    decreases hi - lo
  {
    if lo == hi then 0 else (if buf[lo] == 0 then 1 else 0) + CountZeros(buf, lo + 1, hi)
  }

  /** The position of the NUL that ends the name starting at `curr`: the
      first zero byte from `curr` on. */
  function NameEnd(buf: seq<Byte>, curr: nat, endp: nat): (j: nat)
    requires curr < endp <= |buf| && buf[endp - 1] == 0
    ensures curr <= j < endp && buf[j] == 0
    ensures CountZeros(buf, curr, j) == 0
    decreases endp - curr
  {
    if buf[curr] == 0 then curr else NameEnd(buf, curr + 1, endp)
  }

  lemma {:induction false} CountZerosSplit(buf: seq<Byte>, lo: nat, mid: nat, hi: nat)
    requires lo <= mid <= hi <= |buf|
    ensures CountZeros(buf, lo, hi) == CountZeros(buf, lo, mid) + CountZeros(buf, mid, hi)
    decreases mid - lo
  {
    if lo < mid {
      CountZerosSplit(buf, lo + 1, mid, hi);
    }
  }

  /** The first entry of the static table whose name equals `name`
      (the `for (st = staticOpcodes; st->name; st++)` search with `strcmp`). */
  function FindOp(table: seq<OpcodeDesc>, name: seq<Byte>, t: nat := 0): (r: Option<nat>)
    requires t <= |table|
    ensures r.Some? ==> t <= r.value < |table|
    decreases |table| - t
  {
    if t == |table| then None
    else if table[t].name == name then Some(t)
    else FindOp(table, name, t + 1)
  }

  /** The search finds the first entry named `name`, and fails exactly when
      no entry has that name. */
  lemma {:induction false} FindOpFirstMatch(table: seq<OpcodeDesc>, name: seq<Byte>, t: nat)
    requires t <= |table|
    ensures var r := FindOp(table, name, t);
            && (r.Some? ==> table[r.value].name == name && forall u :: t <= u < r.value ==> table[u].name != name)
            && (r.None? <==> forall u :: t <= u < |table| ==> table[u].name != name)
    decreases |table| - t
  {
    if t < |table| {
      FindOpFirstMatch(table, name, t + 1);
    }
  }

  /** What a name resolves to: nothing for an empty name (a hole) or an
      unknown one, otherwise the first table entry of that name. */
  function Lookup(table: seq<OpcodeDesc>, name: seq<Byte>): Option<OpcodeDesc> {
    if name == [] then None
    else match FindOp(table, name)
      case Some(t) => Some(table[t])
      case None => None
  }

  /** Reference reading of the map: the names between `curr` and `endp`. */
  ghost function Names(buf: seq<Byte>, curr: nat, endp: nat): seq<seq<Byte>>
    requires curr <= endp <= |buf| && (curr < endp ==> buf[endp - 1] == 0)
    decreases endp - curr
  {
    if curr == endp then []
    else
      var j := NameEnd(buf, curr, endp);
      [buf[curr..j]] + Names(buf, j + 1, endp)
  }

  /** Every non-empty name from `curr` on is found in the table. */
  ghost predicate AllResolved(table: seq<OpcodeDesc>, buf: seq<Byte>, curr: nat, endp: nat)
    requires curr <= endp <= |buf| && (curr < endp ==> buf[endp - 1] == 0)
    decreases endp - curr
  {
    curr == endp ||
      var j := NameEnd(buf, curr, endp);
      (j == curr || FindOp(table, buf[curr..j]).Some?) && AllResolved(table, buf, j + 1, endp)
  }

  /** The slots of the second loop of the opcode-map branch: one per name,
      in order. */
  function Slots(table: seq<OpcodeDesc>, buf: seq<Byte>, curr: nat, endp: nat): (r: seq<Option<OpcodeDesc>>)
    requires curr <= endp <= |buf| && (curr < endp ==> buf[endp - 1] == 0)
    ensures |r| == CountZeros(buf, curr, endp)
    decreases endp - curr
  {
    if curr == endp then []
    else
      var j := NameEnd(buf, curr, endp);
      CountZerosSplit(buf, curr, j, j + 1);
      CountZerosSplit(buf, curr, j + 1, endp);
      [Lookup(table, buf[curr..j])] + Slots(table, buf, j + 1, endp)
  }

  /** The error position of the second loop: the start of the LAST
      unresolved name (each miss overwrites the error). */
  function LastMiss(table: seq<OpcodeDesc>, buf: seq<Byte>, curr: nat, endp: nat): (r: Option<nat>)
    requires curr <= endp <= |buf| && (curr < endp ==> buf[endp - 1] == 0)
    ensures r.Some? ==> curr <= r.value < endp && buf[r.value] != 0
    decreases endp - curr
  {
    if curr == endp then None
    else
      var j := NameEnd(buf, curr, endp);
      var rest := LastMiss(table, buf, j + 1, endp);
      if rest.Some? then rest
      else if j != curr && FindOp(table, buf[curr..j]).None? then Some(curr)
      else None
  }

  /** The slots follow the names in order. */
  lemma {:induction false} SlotsFollowNames(table: seq<OpcodeDesc>, buf: seq<Byte>, curr: nat, endp: nat)
    requires curr <= endp <= |buf| && (curr < endp ==> buf[endp - 1] == 0)
    ensures |Slots(table, buf, curr, endp)| == |Names(buf, curr, endp)|
    ensures forall i :: 0 <= i < |Names(buf, curr, endp)| ==>
              Slots(table, buf, curr, endp)[i] == Lookup(table, Names(buf, curr, endp)[i])
    decreases endp - curr
  {
    if curr < endp {
      var j := NameEnd(buf, curr, endp);
      SlotsFollowNames(table, buf, j + 1, endp);
      var r := Slots(table, buf, curr, endp);
      var rest := Slots(table, buf, j + 1, endp);
      var names := Names(buf, curr, endp);
      var restNames := Names(buf, j + 1, endp);
      assert r == [Lookup(table, buf[curr..j])] + rest;
      assert names == [buf[curr..j]] + restNames;
      forall i | 0 <= i < |names|
        ensures r[i] == Lookup(table, names[i])
      {
        if i > 0 {
          assert r[i] == rest[i - 1];
          assert names[i] == restNames[i - 1];
        }
      }
    }
  }

  /** The recorded miss starts a name that the table does not know. */
  lemma {:induction false} LastMissUnresolved(table: seq<OpcodeDesc>, buf: seq<Byte>, curr: nat, endp: nat)
    requires curr <= endp <= |buf| && (curr < endp ==> buf[endp - 1] == 0)
    requires LastMiss(table, buf, curr, endp).Some?
    ensures var m := LastMiss(table, buf, curr, endp).value;
            FindOp(table, buf[m..NameEnd(buf, m, endp)]).None?
    decreases endp - curr
  {
    var j := NameEnd(buf, curr, endp);
    if LastMiss(table, buf, j + 1, endp).Some? {
      LastMissUnresolved(table, buf, j + 1, endp);
    }
  }

  /** No miss is recorded exactly when every name resolves. */
  lemma {:induction false} LastMissNoneIff(table: seq<OpcodeDesc>, buf: seq<Byte>, curr: nat, endp: nat)
    requires curr <= endp <= |buf| && (curr < endp ==> buf[endp - 1] == 0)
    ensures LastMiss(table, buf, curr, endp).None? <==> AllResolved(table, buf, curr, endp)
    decreases endp - curr
  {
    if curr < endp {
      var j := NameEnd(buf, curr, endp);
      LastMissNoneIff(table, buf, j + 1, endp);
    }
  }

  /** The recorded miss is the last unresolved name: every name after it
      resolves. */
  lemma {:induction false} LastMissIsLast(table: seq<OpcodeDesc>, buf: seq<Byte>, curr: nat, endp: nat)
    requires curr <= endp <= |buf| && (curr < endp ==> buf[endp - 1] == 0)
    requires LastMiss(table, buf, curr, endp).Some?
    ensures AllResolved(table, buf, NameEnd(buf, LastMiss(table, buf, curr, endp).value, endp) + 1, endp)
    decreases endp - curr
  {
    var j := NameEnd(buf, curr, endp);
    var rest := LastMiss(table, buf, j + 1, endp);
    if rest.Some? {
      assert LastMiss(table, buf, curr, endp) == rest;
      LastMissIsLast(table, buf, j + 1, endp);
    } else {
      assert LastMiss(table, buf, curr, endp) == Some(curr);
      LastMissNoneIff(table, buf, j + 1, endp);
    }
  }

  /** The second loop and its verdict: one slot per name, holding what the
      name resolves to, when every name resolves; else error 1018 at the
      start of the last name the table does not know. */
  function ResolveAll(table: seq<OpcodeDesc>, buf: seq<Byte>, curr: nat, endp: nat): (r: Result<seq<Option<OpcodeDesc>>>)
    requires curr < endp <= |buf| && buf[endp - 1] == 0
    ensures !r.ReadsPast?
    ensures r.Ok? <==> AllResolved(table, buf, curr, endp)
    ensures r.Ok? ==> NamedSlots(table, buf, curr, endp, r.value)
    ensures r.Err? ==>
              && r.err.code == 1018 && LastMiss(table, buf, curr, endp) == Some(r.err.offset)
              && curr <= r.err.offset < endp && buf[r.err.offset] != 0
              && FindOp(table, buf[r.err.offset..NameEnd(buf, r.err.offset, endp)]).None?
              && AllResolved(table, buf, NameEnd(buf, r.err.offset, endp) + 1, endp)
  {
    LastMissNoneIff(table, buf, curr, endp);
    match LastMiss(table, buf, curr, endp)
    case Some(p) =>
      LastMissUnresolved(table, buf, curr, endp);
      LastMissIsLast(table, buf, curr, endp);
      Err(SetVMImgError(1018, Some(p)))
    case None =>
      SlotsFollowNames(table, buf, curr, endp);
      Ok(Slots(table, buf, curr, endp))
  }

  /** `ops` holds one slot per name of the map between `curr` and `endp`, in
      order, each what its name resolves to. */
  ghost predicate NamedSlots(table: seq<OpcodeDesc>, buf: seq<Byte>, curr: nat, endp: nat,
                             ops: seq<Option<OpcodeDesc>>)
    requires curr <= endp <= |buf| && (curr < endp ==> buf[endp - 1] == 0)
  {
    && |ops| == |Names(buf, curr, endp)|
    && forall i :: 0 <= i < |ops| ==> ops[i] == Lookup(table, Names(buf, curr, endp)[i])
  }

  /** The opcode-map branch of `loadSections` for the section at `s`;
      `seen` says whether an earlier map was loaded. The checks run in the
      order 1015, 1017, 1016, 1018. */
  function LoadOpcodeMap(host: Host, buf: seq<Byte>, s: nat, seen: bool): (r: Result<seq<Option<OpcodeDesc>>>)
    requires s + SectionHeaderSize <= |buf|
    requires SectionHeaderSize <= SizeAt(buf, s) && s + SizeAt(buf, s) <= |buf|
    ensures !r.ReadsPast?
    ensures seen ==> r == Err(VmError(1015, s))
    ensures r.Err? ==> 1015 <= r.err.code <= 1018
    ensures !seen && buf[s + SizeAt(buf, s) - 1] != 0 ==> r == Err(VmError(1017, s))
    ensures (&& !seen && buf[s + SizeAt(buf, s) - 1] == 0
             && CountZeros(buf, s + SectionHeaderSize, s + SizeAt(buf, s)) <= host.vmOpcodeBaseMask)
            ==> r == Err(VmError(1016, s))
    ensures r.Ok? <==>
              && !seen
              && buf[s + SizeAt(buf, s) - 1] == 0
              && CountZeros(buf, s + SectionHeaderSize, s + SizeAt(buf, s)) > host.vmOpcodeBaseMask
              && AllResolved(host.staticOpcodes, buf, s + SectionHeaderSize, s + SizeAt(buf, s))
    ensures r.Ok? ==> |r.value| == CountZeros(buf, s + SectionHeaderSize, s + SizeAt(buf, s))
    ensures r.Ok? ==> NamedSlots(host.staticOpcodes, buf, s + SectionHeaderSize, s + SizeAt(buf, s), r.value)
    ensures r.Err? && r.err.code == 1018 ==>
              && LastMiss(host.staticOpcodes, buf, s + SectionHeaderSize, s + SizeAt(buf, s)) == Some(r.err.offset)
              && s + SectionHeaderSize <= r.err.offset < s + SizeAt(buf, s) && buf[r.err.offset] != 0
  {
    var endp := s + SizeAt(buf, s);
    if seen then Err(SetVMImgError(1015, Some(s)))
    else if buf[endp - 1] != 0 then Err(SetVMImgError(1017, Some(s)))
    else if !(CountZeros(buf, s + SectionHeaderSize, endp) > host.vmOpcodeBaseMask) then Err(SetVMImgError(1016, Some(s)))
    else ResolveAll(host.staticOpcodes, buf, s + SectionHeaderSize, endp)
  }
}
