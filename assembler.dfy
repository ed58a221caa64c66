/**
  The assembler object: an output buffer with a cursor, the positions
  labels were bound to, and the 32-bit relative jump fields still waiting
  for their targets. Assembling a program binds labels and writes code;
  `Finish` then patches every recorded jump field with the distance from the
  end of that field to its label, or zero when the label was never bound.
*/
module Assembly {
  import opened Bits
  import opened Operands
  import opened Emitters
  import HexText

  /** The size of the static buffer `write_binary` and `write_hex` assemble
      into. */
  const BufferSize: nat := 1024 * 1024

  // ---------------------------------------------------------------------
  // What a program assembles to

  /** The bytes one instruction assembles to: a label definition writes
      nothing; an opcode without a case in the dispatch switch gets the
      one-byte nop 0x90. */
  function InstrBytes(instr: Instruction): (bs: seq<byte>)
    ensures |bs| <= 1
  {
    if instr.opcode.LabelDefn? then [] else [0x90]
  }

  /** The code image of a program: its instructions' bytes in order. */
  function Image(code: seq<Instruction>): seq<byte>
  {
    if code == [] then [] else Image(code[..|code| - 1]) + InstrBytes(code[|code| - 1])
  }

  predicate AllWellFormed(code: seq<Instruction>)
  {
    forall i :: 0 <= i < |code| ==> WellFormed(code[i])
  }

  /** The label bindings a program makes: each label definition binds its
      label to the current end of the image, replacing an earlier binding. */
  function LabelTable(code: seq<Instruction>): map<Label, nat>
    requires AllWellFormed(code)
  {
    if code == [] then map[]
    else
      var n := |code| - 1;
      var table := LabelTable(code[..n]);
      if code[n].opcode.LabelDefn? then table[DefinedLabel(code[n]) := |Image(code[..n])|] else table
  }

  /** The positions at which some instruction's assembly ended. */
  function LineBreaks(code: seq<Instruction>): set<nat>
  {
    if code == [] then {} else LineBreaks(code[..|code| - 1]) + {|Image(code)|}
  }

  /** Instruction i defines label l. */
  predicate Defines(code: seq<Instruction>, i: int, l: Label)
    requires AllWellFormed(code)
  {
    0 <= i < |code| && code[i].opcode.LabelDefn? && DefinedLabel(code[i]) == l
  }

  lemma ImageAppend(a: seq<Instruction>, b: seq<Instruction>)
    ensures Image(a + b) == Image(a) + Image(b)
    decreases |b|
  {
    if b == [] {
      assert a + b == a;
    } else {
      var n := |b| - 1;
      assert (a + b)[..|a + b| - 1] == a + b[..n];
      ImageAppend(a, b[..n]);
    }
  }

  /** Extending a prefix by one instruction extends its image by that
      instruction's bytes. */
  lemma ImageStep(code: seq<Instruction>, i: nat)
    requires i < |code|
    ensures Image(code[..i + 1]) == Image(code[..i]) + InstrBytes(code[i])
  {
    assert code[..i + 1][..i] == code[..i];
  }

  /** The image of a prefix of a program is a prefix of its image. */
  lemma ImagePrefix(code: seq<Instruction>, i: nat)
    requires i <= |code|
    ensures |Image(code[..i])| <= |Image(code)|
    ensures Image(code)[..|Image(code[..i])|] == Image(code[..i])
  {
    assert code == code[..i] + code[i..];
    ImageAppend(code[..i], code[i..]);
  }

  lemma WellFormedPrefix(code: seq<Instruction>, n: nat)
    requires AllWellFormed(code) && n <= |code|
    ensures AllWellFormed(code[..n])
    ensures forall i, l :: Defines(code[..n], i, l) <==> (i < n && Defines(code, i, l))
  {
    var pre := code[..n];
    forall i | 0 <= i < n ensures pre[i] == code[i] && WellFormed(pre[i]) {
    }
  }

  /** A label is bound exactly when the program defines it. */
  lemma {:induction false} LabelTableBindsDefined(code: seq<Instruction>, l: Label)
    requires AllWellFormed(code)
    ensures l in LabelTable(code) <==> exists i :: Defines(code, i, l)
    decreases |code|
  {
    if code != [] {
      var n := |code| - 1;
      WellFormedPrefix(code, n);
      LabelTableBindsDefined(code[..n], l);
      if Defines(code, n, l) {
        assert l in LabelTable(code);
      } else if exists i :: Defines(code, i, l) {
        var i :| Defines(code, i, l);
        assert Defines(code[..n], i, l);
      }
    }
  }

  /** A bound label's offset is the image length in front of its last
      definition. */
  lemma {:induction false} LabelTableBindsLastDefinition(code: seq<Instruction>, l: Label)
    requires AllWellFormed(code) && l in LabelTable(code)
    ensures exists i :: (Defines(code, i, l) && LabelTable(code)[l] == |Image(code[..i])|
                         && forall j :: i < j < |code| ==> !Defines(code, j, l))
    decreases |code|
  {
    var n := |code| - 1;
    var pre := code[..n];
    WellFormedPrefix(code, n);
    if Defines(code, n, l) {
      assert LabelTable(code)[l] == |Image(code[..n])|;
    } else {
      assert l in LabelTable(pre);
      LabelTableBindsLastDefinition(pre, l);
      var i :| Defines(pre, i, l) && LabelTable(pre)[l] == |Image(pre[..i])|
        && forall j :: i < j < |pre| ==> !Defines(pre, j, l);
      assert pre[..i] == code[..i];
      assert forall j :: i < j < |code| ==> !Defines(code, j, l);
    }
  }

  /** Every instruction boundary lies inside the image, and the end of the
      image is one of them. */
  lemma {:induction false} LineBreaksWithinImage(code: seq<Instruction>)
    ensures forall p :: p in LineBreaks(code) ==> p <= |Image(code)|
    ensures code != [] ==> |Image(code)| in LineBreaks(code)
    decreases |code|
  {
    if code != [] {
      LineBreaksWithinImage(code[..|code| - 1]);
    }
  }

  /** A label definition ends where it starts, so it adds no line of its
      own: several labels in a row produce a single break. */
  lemma LabelAddsNoLine(code: seq<Instruction>, instr: Instruction)
    requires instr.opcode.LabelDefn?
    requires code != []
    ensures Image(code + [instr]) == Image(code)
    ensures LineBreaks(code + [instr]) == LineBreaks(code)
  {
    var c := code + [instr];
    assert c[..|c| - 1] == code;
    LineBreaksWithinImage(code);
  }

  /** One more instruction: the buffer after writing its bytes at the end of
      the image so far holds the longer image, and the label table and the
      breaks grow as the longer program's do. */
  lemma AssembleStep(code: seq<Instruction>, i: nat, before: seq<byte>, after: seq<byte>)
    requires AllWellFormed(code) && i < |code|
    requires |Image(code[..i])| + |InstrBytes(code[i])| <= |before|
    requires before[..|Image(code[..i])|] == Image(code[..i])
    requires after == Write(before, |Image(code[..i])|, InstrBytes(code[i]))
    ensures AllWellFormed(code[..i + 1])
    ensures |Image(code[..i + 1])| == |Image(code[..i])| + |InstrBytes(code[i])|
    ensures after[..|Image(code[..i + 1])|] == Image(code[..i + 1])
    ensures LabelTable(code[..i + 1])
         == if code[i].opcode.LabelDefn? then LabelTable(code[..i])[DefinedLabel(code[i]) := |Image(code[..i])|]
            else LabelTable(code[..i])
    ensures LineBreaks(code[..i + 1]) == LineBreaks(code[..i]) + {|Image(code[..i + 1])|}
  {
    var pre, cur := code[..i], code[..i + 1];
    assert cur == pre + [code[i]] && cur[..i] == pre;
    WellFormedPrefix(code, i + 1);
    var n := |Image(pre)|;
    ImageStep(code, i);
    assert after[..n + |InstrBytes(code[i])|] == before[..n] + InstrBytes(code[i]);
  }

  // ---------------------------------------------------------------------
  // Patching the jump fields

  /** A recorded jump field: the position of its four bytes and the label
      it refers to. */
  type Jump = (nat, Label)

  predicate FieldsWithin(jumps: seq<Jump>, n: nat)
  {
    forall k :: 0 <= k < |jumps| ==> jumps[k].0 + 4 <= n
  }

  lemma FieldsWithinLarger(jumps: seq<Jump>, n: nat, m: nat)
    requires FieldsWithin(jumps, n) && n <= m
    ensures FieldsWithin(jumps, m)
  {
  }

  /** `itr->second - pos - 4`, or 0 for a label that was never bound. */
  function FixupValue(jump: Jump, labels: map<Label, nat>): int
  {
    if jump.1 in labels then labels[jump.1] - jump.0 - 4 else 0
  }

  /** What `finish` stores into a jump's field: its fix-up value as a
      32-bit little-endian immediate. */
  function FixupBytes(jump: Jump, labels: map<Label, nat>): (bs: seq<byte>)
    ensures |bs| == 4
  {
    LittleEndian(FixupValue(jump, labels), 4)
  }

  /** A store: a position and the bytes written there. */
  type Store = (nat, seq<byte>)

  /** The stores `finish` performs, in recording order. */
  function Fixups(jumps: seq<Jump>, labels: map<Label, nat>): (r: seq<Store>)
    ensures |r| == |jumps|
  {
    if jumps == [] then []
    else
      var n := |jumps| - 1;
      Fixups(jumps[..n], labels) + [(jumps[n].0, FixupBytes(jumps[n], labels))]
  }

  lemma {:induction false} FixupsAt(jumps: seq<Jump>, labels: map<Label, nat>, k: nat)
    requires k < |jumps|
    ensures Fixups(jumps, labels)[k] == (jumps[k].0, FixupBytes(jumps[k], labels))
    decreases |jumps|
  {
    var n := |jumps| - 1;
    var last: Store := (jumps[n].0, FixupBytes(jumps[n], labels));
    assert Fixups(jumps, labels) == Fixups(jumps[..n], labels) + [last];
    if k < n {
      FixupsAt(jumps[..n], labels, k);
      assert jumps[..n][k] == jumps[k];
    }
  }

  predicate StoresWithin(stores: seq<Store>, n: nat)
  {
    forall k :: 0 <= k < |stores| ==> stores[k].0 + |stores[k].1| <= n
  }

  predicate StoresDisjoint(stores: seq<Store>)
  {
    forall i, j :: 0 <= i < j < |stores| ==>
      stores[i].0 + |stores[i].1| <= stores[j].0 || stores[j].0 + |stores[j].1| <= stores[i].0
  }

  /** The stores performed one after the other. */
  function ApplyStores(s: seq<byte>, stores: seq<Store>): (r: seq<byte>)
    requires StoresWithin(stores, |s|)
    ensures |r| == |s|
  {
    if stores == [] then s
    else
      var n := |stores| - 1;
      Write(ApplyStores(s, stores[..n]), stores[n].0, stores[n].1)
  }

  /** A byte no store covers keeps its value. */
  lemma {:induction false} ApplyStoresElsewhere(s: seq<byte>, stores: seq<Store>, p: nat)
    requires StoresWithin(stores, |s|) && p < |s|
    requires forall k :: 0 <= k < |stores| ==> !(stores[k].0 <= p < stores[k].0 + |stores[k].1|)
    ensures ApplyStores(s, stores)[p] == s[p]
    decreases |stores|
  {
    if stores != [] {
      ApplyStoresElsewhere(s, stores[..|stores| - 1], p);
    }
  }

  /** With stores that do not overlap, each one's bytes survive the rest. */
  lemma {:induction false} ApplyStoresKeeps(s: seq<byte>, stores: seq<Store>, k: nat)
    requires StoresWithin(stores, |s|) && StoresDisjoint(stores) && k < |stores|
    ensures ApplyStores(s, stores)[stores[k].0..stores[k].0 + |stores[k].1|] == stores[k].1
    decreases |stores|
  {
    var n := |stores| - 1;
    if k < n {
      var pre := stores[..n];
      assert pre[k] == stores[k];
      DisjointStoresPrefix(stores, n);
      ApplyStoresKeeps(s, pre, k);
      ApplyStoresLastElsewhere(s, stores, stores[k].0, |stores[k].1|);
    } else {
      ApplyStoresLast(s, stores);
    }
  }

  /** The last store's bytes are in place. */
  lemma ApplyStoresLast(s: seq<byte>, stores: seq<Store>)
    requires StoresWithin(stores, |s|) && stores != []
    ensures var (q, v) := stores[|stores| - 1]; ApplyStores(s, stores)[q..q + |v|] == v
  {
  }

  /** The last store leaves a window beside it as the earlier stores left it. */
  lemma ApplyStoresLastElsewhere(s: seq<byte>, stores: seq<Store>, p: nat, len: nat)
    requires StoresWithin(stores, |s|) && stores != [] && p + len <= |s|
    requires var (q, v) := stores[|stores| - 1]; p + len <= q || q + |v| <= p
    ensures var pre := stores[..|stores| - 1];
      ApplyStores(s, stores)[p..p + len] == ApplyStores(s, pre)[p..p + len]
  {
    var n := |stores| - 1;
    WriteElsewhere(ApplyStores(s, stores[..n]), stores[n].0, stores[n].1, p, len);
  }

  lemma DisjointStoresPrefix(stores: seq<Store>, n: nat)
    requires StoresDisjoint(stores) && n <= |stores|
    ensures StoresDisjoint(stores[..n])
  {
    var pre := stores[..n];
    forall i, j | 0 <= i < j < |pre|
      ensures pre[i].0 + |pre[i].1| <= pre[j].0 || pre[j].0 + |pre[j].1| <= pre[i].0
    {
      assert pre[i] == stores[i] && pre[j] == stores[j];
    }
  }

  /** A window beside a write is not changed by it. */
  lemma WriteElsewhere(s: seq<byte>, q: nat, bs: seq<byte>, p: nat, len: nat)
    requires q + |bs| <= |s| && p + len <= |s| && (p + len <= q || q + |bs| <= p)
    ensures Write(s, q, bs)[p..p + len] == s[p..p + len]
  {
    var after := Write(s, q, bs);
    forall t | p <= t < p + len ensures after[t] == s[t] {
      assert !(q <= t < q + |bs|);
    }
  }

  lemma FixupsWithin(jumps: seq<Jump>, labels: map<Label, nat>, n: nat)
    requires FieldsWithin(jumps, n)
    ensures StoresWithin(Fixups(jumps, labels), n)
  {
    forall k | 0 <= k < |jumps| ensures Fixups(jumps, labels)[k].0 + |Fixups(jumps, labels)[k].1| <= n {
      FixupsAt(jumps, labels, k);
    }
  }

  /** The image with every recorded field overwritten, in recording order,
      by its fix-up bytes. */
  function Patched(s: seq<byte>, jumps: seq<Jump>, labels: map<Label, nat>): (r: seq<byte>)
    requires FieldsWithin(jumps, |s|)
    ensures |r| == |s|
  {
    FixupsWithin(jumps, labels, |s|);
    ApplyStores(s, Fixups(jumps, labels))
  }

  /** With no jumps recorded, finishing changes nothing. */
  lemma PatchedNoJumps(s: seq<byte>, labels: map<Label, nat>)
    ensures Patched(s, [], labels) == s
  {
  }

  /** Bytes outside every recorded field are left alone. */
  lemma PatchedLeavesOtherBytes(s: seq<byte>, jumps: seq<Jump>, labels: map<Label, nat>, p: nat)
    requires FieldsWithin(jumps, |s|) && p < |s|
    requires forall k :: 0 <= k < |jumps| ==> !(jumps[k].0 <= p < jumps[k].0 + 4)
    ensures Patched(s, jumps, labels)[p] == s[p]
  {
    var stores := Fixups(jumps, labels);
    FixupsWithin(jumps, labels, |s|);
    forall k | 0 <= k < |stores| ensures !(stores[k].0 <= p < stores[k].0 + |stores[k].1|) {
      FixupsAt(jumps, labels, k);
    }
    ApplyStoresElsewhere(s, stores, p);
  }

  /** No two recorded fields overlap. */
  predicate Disjoint(jumps: seq<Jump>)
  {
    forall i, j :: 0 <= i < j < |jumps| ==> jumps[i].0 + 4 <= jumps[j].0 || jumps[j].0 + 4 <= jumps[i].0
  }

  /** Fields recorded in increasing position, each after the previous one
      ends, as the cursor only moves forward. */
  predicate InOrder(jumps: seq<Jump>)
  {
    forall i, j :: 0 <= i < j < |jumps| ==> jumps[i].0 + 4 <= jumps[j].0
  }

  lemma InOrderDisjoint(jumps: seq<Jump>)
    requires InOrder(jumps)
    ensures Disjoint(jumps)
  {
  }

  /** Patching one more field is one more 32-bit store. */
  lemma PatchedStep(s: seq<byte>, jumps: seq<Jump>, labels: map<Label, nat>, i: nat)
    requires FieldsWithin(jumps, |s|) && i < |jumps|
    ensures FieldsWithin(jumps[..i], |s|) && FieldsWithin(jumps[..i + 1], |s|)
    ensures Patched(s, jumps[..i + 1], labels)
         == Write(Patched(s, jumps[..i], labels), jumps[i].0, FixupBytes(jumps[i], labels))
  {
    var pre, cur := jumps[..i], jumps[..i + 1];
    assert cur[..i] == pre;
    FixupsWithin(pre, labels, |s|);
    FixupsWithin(cur, labels, |s|);
    var stores := Fixups(cur, labels);
    assert stores[..i] == Fixups(pre, labels);
  }

  /** With fields that do not overlap, each field holds the 32-bit store of
      its own fix-up value. */
  lemma PatchedField(s: seq<byte>, jumps: seq<Jump>, labels: map<Label, nat>, k: nat)
    requires FieldsWithin(jumps, |s|) && Disjoint(jumps) && k < |jumps|
    ensures var p := jumps[k].0; Patched(s, jumps, labels)[p..p + 4] == FixupBytes(jumps[k], labels)
  {
    var stores := Fixups(jumps, labels);
    FixupsWithin(jumps, labels, |s|);
    FixupsDisjoint(jumps, labels);
    FixupsAt(jumps, labels, k);
    ApplyStoresKeeps(s, stores, k);
  }

  lemma FixupsDisjoint(jumps: seq<Jump>, labels: map<Label, nat>)
    requires Disjoint(jumps)
    ensures StoresDisjoint(Fixups(jumps, labels))
  {
    var stores := Fixups(jumps, labels);
    forall i, j | 0 <= i < j < |stores|
      ensures stores[i].0 + |stores[i].1| <= stores[j].0 || stores[j].0 + |stores[j].1| <= stores[i].0
    {
      FixupsAt(jumps, labels, i);
      FixupsAt(jumps, labels, j);
    }
  }

  /** Read as a signed 32-bit displacement from the end of the field, a
      patched field lands on its label, provided the distance fits; a field
      for an unbound label reads as zero. */
  lemma JumpLandsOnLabel(s: seq<byte>, jumps: seq<Jump>, labels: map<Label, nat>, k: nat)
    requires FieldsWithin(jumps, |s|) && Disjoint(jumps) && k < |jumps|
    requires jumps[k].1 in labels ==> FitsSigned(FixupValue(jumps[k], labels), 4)
    ensures var p := jumps[k].0;
      var rel := Signed(FromLittleEndian(Patched(s, jumps, labels)[p..p + 4]), 4);
      && (jumps[k].1 in labels ==> p + 4 + rel == labels[jumps[k].1])
      && (jumps[k].1 !in labels ==> rel == 0)
  {
    PatchedField(s, jumps, labels, k);
    if jumps[k].1 in labels {
      LittleEndianSignedRoundTrip(FixupValue(jumps[k], labels), 4);
    } else {
      assert FitsSigned(0, 4);
      LittleEndianSignedRoundTrip(0, 4);
    }
  }

  // ---------------------------------------------------------------------
  // The assembler

  class Assembler {
    var buf: array<byte>
    var cursor: nat
    var labels: map<Label, nat>
    var jumps: seq<Jump>

    /** The cursor stays inside the buffer, and every recorded field lies
        in the part already written. */
    ghost predicate Valid()
      reads this
    {
      cursor <= buf.Length && FieldsWithin(jumps, cursor) && InOrder(jumps)
    }

    constructor(buffer: array<byte>)
      ensures Valid()
      ensures buf == buffer && cursor == 0 && labels == map[] && jumps == []
    {
      buf, cursor := buffer, 0;
      labels, jumps := map[], [];
    }

    /** Forgets all labels and jumps and starts writing at the head of
        `buffer`. */
    method Start(buffer: array<byte>)
      modifies this
      ensures Valid()
      ensures buf == buffer && cursor == 0 && labels == map[] && jumps == []
    {
      labels := map[];
      jumps := [];
      buf := buffer;
      cursor := 0;
    }

    /** Binds `l` to the cursor, replacing an earlier binding. */
    method Bind(l: Label)
      requires Valid()
      modifies this
      ensures Valid()
      ensures labels == old(labels)[l := old(cursor)]
      ensures buf == old(buf) && cursor == old(cursor) && jumps == old(jumps)
    {
      labels := labels[l := cursor];
    }

    /** The label-definition case binds the instruction's label; the default
        case writes the nop 0x90. */
    method Assemble(instr: Instruction)
      requires Valid() && WellFormed(instr)
      requires cursor + |InstrBytes(instr)| <= buf.Length
      modifies this, buf
      ensures Valid()
      ensures buf == old(buf) && jumps == old(jumps)
      ensures cursor == old(cursor) + |InstrBytes(instr)|
      ensures buf[..] == Write(old(buf[..]), old(cursor), InstrBytes(instr))
      ensures labels == if instr.opcode.LabelDefn? then old(labels)[DefinedLabel(instr) := old(cursor)]
                        else old(labels)
    {
      match instr.opcode
      case LabelDefn =>
        Bind(instr.operands[0].target);
        assert buf[..] == Write(old(buf[..]), old(cursor), []);
      case Unlisted(_) =>
        cursor := Emit(buf, cursor, 0x90);
    }

    /** The rel32 field of a jump to `target`, as the instruction emitters
        leave it: four zero bytes, recorded for patching. */
    method EmitRel32(target: Label)
      requires Valid() && cursor + 4 <= buf.Length
      modifies this, buf
      ensures Valid()
      ensures buf == old(buf) && labels == old(labels)
      ensures jumps == old(jumps) + [(old(cursor), target)]
      ensures cursor == old(cursor) + 4
      ensures buf[..] == Write(old(buf[..]), old(cursor), LittleEndian(0, 4))
    {
      jumps := jumps + [(cursor, target)];
      cursor := EmitImm32(buf, cursor, 0);
    }

    /** Patches every recorded field, in recording order. */
    method Finish()
      requires Valid()
      modifies buf
      ensures buf[..] == Patched(old(buf[..]), jumps, labels)
    {
      ghost var original := buf[..];
      var js, table, out := jumps, labels, buf;
      FieldsWithinLarger(js, cursor, out.Length);
      for i := 0 to |js|
        invariant out[..] == Patched(original, js[..i], table)
      {
        // FixupValue is the branch on whether the label was bound.
        PatchedStep(original, js, table, i);
        var _ := EmitImm32(out, js[i].0, FixupValue(js[i], table));
      }
      assert js[..|js|] == js;
    }

    /** Assembles `code` from the head of `buffer`: the bytes written are
        the program's image, and the labels are its label table. */
    method AssembleAll(buffer: array<byte>, code: seq<Instruction>) returns (breaks: set<nat>)
      requires AllWellFormed(code) && |Image(code)| <= buffer.Length
      modifies this, buffer
      ensures Valid() && buf == buffer && jumps == []
      ensures cursor == |Image(code)| && buf[..cursor] == Image(code)
      ensures labels == LabelTable(code)
      ensures breaks == LineBreaks(code)
    {
      Start(buffer);
      breaks := {};
      for i := 0 to |code|
        invariant Valid() && buf == buffer && jumps == []
        invariant cursor == |Image(code[..i])| && buf[..cursor] == Image(code[..i])
        invariant AllWellFormed(code[..i]) && labels == LabelTable(code[..i])
        invariant breaks == LineBreaks(code[..i])
      {
        ImagePrefix(code, i + 1);
        ImageStep(code, i);
        ghost var before := buf[..];
        Assemble(code[i]);
        AssembleStep(code, i, before, buf[..]);
        breaks := breaks + {cursor};
      }
      assert code[..|code|] == code;
    }

    /** `write_binary`: assemble into the static buffer, patch the jumps,
        and output the bytes from the head of the buffer to the cursor. */
    method WriteBinary(code: seq<Instruction>) returns (out: seq<byte>)
      requires AllWellFormed(code) && |Image(code)| <= BufferSize
      modifies this
      ensures out == Image(code) && labels == LabelTable(code)
      ensures Valid() && fresh(buf) && buf.Length == BufferSize && jumps == []
      ensures cursor == |Image(code)| && buf[..cursor] == Image(code)
    {
      var buffer := new byte[BufferSize];
      var _ := AssembleAll(buffer, code);
      ghost var assembled := buf[..];
      Finish();
      PatchedNoJumps(assembled, labels);
      assert buf[..cursor] == Image(code);
      out := [];
      var i := 0;
      while i < cursor
        invariant i <= cursor && out == buf[..i]
      {
        out := out + [buf[i]];
        i := i + 1;
      }
    }

    /** `write_hex`: as `write_binary`, but each byte is printed as two hex
        digits and a space, with a line break in front of every byte at
        which an instruction's assembly ended. */
    method WriteHex(code: seq<Instruction>) returns (text: string)
      requires AllWellFormed(code) && |Image(code)| <= BufferSize
      modifies this
      ensures text == HexText.HexDump(Image(code), LineBreaks(code))
      ensures HexText.ParseHex(text) == Some(Image(code))
      ensures labels == LabelTable(code)
      ensures Valid() && fresh(buf) && buf.Length == BufferSize && jumps == []
      ensures cursor == |Image(code)| && buf[..cursor] == Image(code)
    {
      var buffer := new byte[BufferSize];
      var breaks := AssembleAll(buffer, code);
      ghost var assembled := buf[..];
      Finish();
      PatchedNoJumps(assembled, labels);
      assert buf[..cursor] == Image(code);
      text := "";
      var i := 0;
      while i < cursor
        invariant i <= cursor <= buf.Length && buf[..cursor] == Image(code)
        invariant text == HexText.HexDump(buf[..i], breaks)
        invariant Valid() && buf == buffer && jumps == [] && labels == LabelTable(code)
      {
        HexText.DumpLast(buf[..i + 1], breaks);
        assert buf[..i + 1][..i] == buf[..i];
        if i in breaks {
          text := text + "\n";
        }
        text := text + HexText.HexPair(buf[i]) + " ";
        i := i + 1;
      }
      HexText.DumpRoundTrip(Image(code), breaks);
    }
  }
}
