/** The context switch, instruction by instruction. */
module ContextSwitch {
  import opened Bits
  import opened PhysicalMemory
  import opened ContextFrames

  class Cpu {
    var eax: Word
    var ecx: Word
    var edx: Word
    var ebx: Word
    var esp: Word
    var ebp: Word
    var esi: Word
    var edi: Word
    var ds: Word
    var es: Word
    var fs: Word
    var gs: Word
    var cs: Word
    var eip: Word
    var eflags: Word
    const mem: array<Word>
    /** Word address of the variable current_thread. */
    const current: nat

    function Registers(): Regs
      reads this
    {
      Regs(gs, fs, es, ds, edi, esi, ebp, ebx, edx, ecx, eax, eip, cs, eflags, esp)
    }

    ghost predicate Sane()
      reads this
    {
      mem.Length <= 0x4000_0000 && esp % 4 == 0 && current < mem.Length
    }

    /** add, sub, cmp: whatever they compute, they set the status flags. */
    method SetStatus()
      modifies this`eflags
      ensures KeepsControl(eflags, old(eflags))
    {
      var status: Word := *;
      StatusKeepsControl(eflags, status);
      eflags := WithStatus(eflags, status);
    }

    /** push, extending the words `vs` stored so far over the memory `m`. */
    method Push(v: Word, ghost m: seq<Word>, ghost vs: seq<Word>)
      requires Sane() && 0 < esp / 4 && esp / 4 + |vs| <= |m| && mem[..] == Stored(m, esp / 4, vs)
      modifies this`esp, mem
      ensures esp == old(esp) - 4 && mem[..] == Stored(m, esp / 4, [v] + vs)
    {
      hide Stored;
      PushStored(m, esp / 4, vs, v);
      esp := esp - 4;
      mem[esp / 4] := v;
    }

    method Pop(ghost w: nat) returns (v: Word)
      requires esp == 4 * w && w < mem.Length && esp < 0x1_0000_0000 - 4
      modifies this`esp
      ensures v == mem[w] && esp == 4 * (w + 1)
    {
      v := mem[esp / 4];
      esp := esp + 4;
    }

    /** pushad; push ds; push es; push fs; push gs. */
    method SaveRegisters(ghost m: seq<Word>, ghost vs: seq<Word>)
      requires Sane() && 12 <= esp / 4 && esp / 4 + |vs| <= |m| && mem[..] == Stored(m, esp / 4, vs)
      modifies this`esp, mem
      ensures esp == old(esp) - 48
      ensures mem[..] == Stored(m, esp / 4, [gs, fs, es, ds, edi, esi, ebp, old(esp), ebx, edx, ecx, eax] + vs)
    {
      hide Stored;
      var before := esp;
      Push(eax, m, vs);
      Push(ecx, m, [eax] + vs);
      Push(edx, m, [ecx] + ([eax] + vs));
      Push(ebx, m, [edx] + ([ecx] + ([eax] + vs)));
      assert [ebx] + ([edx] + ([ecx] + ([eax] + vs))) == [ebx, edx, ecx, eax] + vs;
      SaveIndexes(before, m, [ebx, edx, ecx, eax] + vs);
      assert [gs, fs, es, ds, edi, esi, ebp, before] + ([ebx, edx, ecx, eax] + vs)
          == [gs, fs, es, ds, edi, esi, ebp, before, ebx, edx, ecx, eax] + vs;
    }

    /** The second half of pushad, and the segment registers. */
    method SaveIndexes(before: Word, ghost m: seq<Word>, ghost vs: seq<Word>)
      requires Sane() && 8 <= esp / 4 && esp / 4 + |vs| <= |m| && mem[..] == Stored(m, esp / 4, vs)
      modifies this`esp, mem
      ensures esp == old(esp) - 32
      ensures mem[..] == Stored(m, esp / 4, [gs, fs, es, ds, edi, esi, ebp, before] + vs)
    {
      hide Stored;
      Push(before, m, vs);
      Push(ebp, m, [before] + vs);
      Push(esi, m, [ebp] + ([before] + vs));
      Push(edi, m, [esi] + ([ebp] + ([before] + vs)));
      ghost var us := [edi] + ([esi] + ([ebp] + ([before] + vs)));
      Push(ds, m, us);
      Push(es, m, [ds] + us);
      Push(fs, m, [es] + ([ds] + us));
      Push(gs, m, [fs] + ([es] + ([ds] + us)));
      assert [gs] + ([fs] + ([es] + ([ds] + us))) == [gs, fs, es, ds, edi, esi, ebp, before] + vs;
    }

    /** pop gs; pop fs; pop es; pop ds; popad; add esp, 8; iret. */
    method RestoreRegisters(ghost w: nat)
      requires esp == 4 * w && w + 17 <= mem.Length <= 0x4000_0000 && esp < 0x1_0000_0000 - 68
      modifies this
      ensures Registers() == RegsAt(mem[..], w)
    {
      hide KeepsControl;
      PopSegments(w);
      PopAll(w + 4);
      esp := esp + 8;
      SetStatus();
      InterruptReturn(w + 14);
    }

    method PopSegments(ghost w: nat)
      requires esp == 4 * w && w + 4 <= mem.Length && esp < 0x1_0000_0000 - 16
      modifies this`gs, this`fs, this`es, this`ds, this`esp
      ensures esp == 4 * (w + 4)
      ensures gs == mem[w] && fs == mem[w + 1] && es == mem[w + 2] && ds == mem[w + 3]
    {
      gs := Pop(w);
      fs := Pop(w + 1);
      es := Pop(w + 2);
      ds := Pop(w + 3);
    }

    /** iret, to code at the same privilege level. */
    method InterruptReturn(ghost w: nat)
      requires esp == 4 * w && w + 3 <= mem.Length && esp < 0x1_0000_0000 - 12
      modifies this`eip, this`cs, this`eflags, this`esp
      ensures esp == 4 * (w + 3)
      ensures eip == mem[w] && cs == mem[w + 1] && eflags == mem[w + 2]
    {
      eip := Pop(w);
      cs := Pop(w + 1);
      eflags := Pop(w + 2);
    }

    /** popad: the stored stack pointer is skipped. */
    method PopAll(ghost w: nat)
      requires esp == 4 * w && w + 8 <= mem.Length && esp < 0x1_0000_0000 - 32
      modifies this`edi, this`esi, this`ebp, this`ebx, this`edx, this`ecx, this`eax, this`esp
      ensures esp == 4 * (w + 8)
      ensures edi == mem[w] && esi == mem[w + 1] && ebp == mem[w + 2]
      ensures ebx == mem[w + 4] && edx == mem[w + 5] && ecx == mem[w + 6] && eax == mem[w + 7]
    {
      edi := Pop(w);
      esi := Pop(w + 1);
      ebp := Pop(w + 2);
      var skipped := Pop(w + 3);
      ebx := Pop(w + 4);
      edx := Pop(w + 5);
      ecx := Pop(w + 6);
      eax := Pop(w + 7);
    }

    /** The opening of the switch: the return address is moved down two words, and EFLAGS and the code
        segment take its place and the one below, as an interrupt would leave them; then two zeros. */
    method PushInterruptFrame()
      requires Sane() && AtCall(mem[..], Registers())
      modifies this`esp, this`eax, this`eflags, mem
      ensures eax == old(eax) && esp == old(esp) - 16
      ensures exists flags: Word ::
        KeepsControl(flags, old(eflags)) &&
        mem[..] == Stored(old(mem[..]), esp / 4, [0, 0, old(mem[..])[old(esp) / 4], KERNEL_CS, flags])
    {
      hide Stored, KeepsControl;
      ghost var m, e := mem[..], esp / 4;
      var flags := MoveReturnAddress();
      Push(0, m, [m[e], KERNEL_CS, flags]);
      Push(0, m, [0] + [m[e], KERNEL_CS, flags]);
      assert [0] + ([0] + [m[e], KERNEL_CS, flags]) == [0, 0, m[e], KERNEL_CS, flags];
      assert KeepsControl(flags, old(eflags));
    }

    /** push eax; mov eax, [esp+4]; mov [esp-4], eax; add esp, 8. */
    method CopyDown(ghost e: nat)
      requires esp == 4 * e && 2 <= e && e + 1 < mem.Length <= 0x4000_0000
      modifies this`esp, this`eax, mem
      ensures esp == 4 * (e + 1) && mem[..] == old(mem[..])[e - 2 := old(mem[..])[e]][e - 1 := old(eax)]
    {
      mem[esp / 4 - 1], esp := eax, esp - 4;
      eax := mem[esp / 4 + 1];
      mem[esp / 4 - 1] := eax;
      esp := esp + 8;
    }

    /** pushfd; mov eax, [esp-4]; push cs; sub esp, 4. */
    method PushFlagsAndSegment(ghost e: nat) returns (flags: Word)
      requires esp == 4 * (e + 1) && 2 <= e < mem.Length
      modifies this`esp, this`eax, mem
      ensures esp == 4 * (e - 2) && eax == old(mem[..])[e - 1] && flags == eflags
      ensures mem[..] == old(mem[..])[e := eflags][e - 1 := KERNEL_CS]
    {
      flags := eflags;
      esp := esp - 4;
      mem[esp / 4] := flags;
      eax := mem[esp / 4 - 1];
      mem[esp / 4 - 1], esp := KERNEL_CS, esp - 4;
      esp := esp - 4;
    }

    /** The two together, with the arithmetic between them that sets the status flags. */
    method MoveReturnAddress() returns (flags: Word)
      requires Sane() && AtCall(mem[..], Registers())
      modifies this`esp, this`eax, this`eflags, mem
      ensures eax == old(eax) && esp == old(esp) - 8 && KeepsControl(flags, old(eflags))
      ensures mem[..] == Stored(old(mem[..]), esp / 4, [old(mem[..])[old(esp) / 4], KERNEL_CS, flags])
    {
      hide KeepsControl, Stored;
      ghost var m: seq<Word> := mem[..];
      ghost var e := esp / 4;
      CopyDown(e);
      SetStatus();
      flags := PushFlagsAndSegment(e);
      SetStatus();
      assert mem[..] == m[e - 2 := m[e]][e - 1 := KERNEL_CS][e := flags];
      ThreeStored(m, e, m[e], KERNEL_CS, flags);
    }

    /** The new thread's saved context can be popped. */
    ghost predicate CanEnter(m: seq<Word>, next: nat) {
      && |m| <= 0x4000_0000 && next < |m| && m[next] % 4 == 0
      && m[next] / 4 + 17 <= |m| && m[next] < 0x1_0000_0000 - 68
    }

    /** threads_low_switch_to when a thread is current. The argument, at the word above the return
        address, is the address of the thread object to enter; `from` is the current one's. */
    method SwitchTo(from: nat, next: nat)
      requires Sane() && AtCall(mem[..], Registers())
      requires mem[current] == 4 * from && from != 0 && from < mem.Length
      requires mem[esp / 4 + 1] == 4 * next && next < mem.Length
      requires OffStack(Registers(), current) && OffStack(Registers(), from)
      requires forall flags: Word :: CanEnter(SwitchedMemory(mem[..], Registers(), flags, current, from, next), next)
      modifies this, mem
      ensures exists flags: Word ::
        (forall b: nat | b !in {0, 2, 4, 6, 7, 11} :: Bit(flags, b) == Bit(old(eflags), b)) &&
        mem[..] == SwitchedMemory(old(mem[..]), old(Registers()), flags, current, from, next)
      ensures CanEnter(mem[..], next) && Registers() == RegsAt(mem[..], mem[next] / 4)
    {
      hide Saved;
      ghost var m: seq<Word> := mem[..];
      ghost var r := Registers();
      ghost var flags := SaveContext();
      SavedKeeps(m, r, flags, r.esp / 4 + 1);
      SavedKeeps(m, r, flags, current);
      eax := mem[current];
      mem[eax / 4] := esp;
      eax := mem[esp / 4 + 17];
      mem[current] := eax;
      assert mem[..] == SwitchedMemory(m, r, flags, current, from, next);
      esp := mem[eax / 4];
      RestoreRegisters(mem[next] / 4);
    }

    /** Everything up to the point where the stack pointer is stored in the thread object. */
    method SaveContext() returns (ghost flags: Word)
      requires Sane() && AtCall(mem[..], Registers())
      modifies this`esp, this`eax, this`eflags, mem
      ensures KeepsControl(flags, old(eflags)) && esp == old(esp) - 64
      ensures mem[..] == Saved(old(mem[..]), old(Registers()), flags)
    {
      hide Stored, KeepsControl, Saved;
      ghost var m, r, e := mem[..], Registers(), esp / 4;
      PushInterruptFrame();
      flags :| KeepsControl(flags, r.eflags) && mem[..] == Stored(m, esp / 4, [0, 0, m[e], KERNEL_CS, flags]);
      SaveRegisters(m, [0, 0, m[e], KERNEL_CS, flags]);
      SavedIs(m, r, flags);
    }

    /** threads_low_switch_to for the start-up code, which is no thread: nothing is saved. */
    method EnterFirst(next: nat)
      requires Sane() && esp / 4 + 1 < mem.Length && mem[esp / 4 + 1] == 4 * next && next < mem.Length
      requires mem[current] == 0 && CanEnter(mem[..][current := 4 * next], next)
      modifies this, mem
      ensures mem[..] == old(mem[..])[current := 4 * next]
      ensures Registers() == RegsAt(mem[..], mem[next] / 4)
    {
      eax := mem[esp / 4 + 1];
      mem[current] := eax;
      esp := mem[eax / 4];
      RestoreRegisters(mem[next] / 4);
    }

    /** The return instruction that ends each function. */
    method Ret()
      requires Sane() && esp / 4 < mem.Length && esp < 0x1_0000_0000 - 4
      modifies this`eip, this`esp
      ensures eip == mem[old(esp) / 4] && esp == old(esp) + 4
    {
      eip := Pop(esp / 4);
    }
  }

  lemma ThreeStored(m: seq<Word>, e: nat, x: Word, y: Word, z: Word)
    requires 2 <= e < |m|
    ensures m[e - 2 := x][e - 1 := y][e := z] == Stored(m, e - 2, [x, y, z])
  {
  }

  lemma SavedIs(m: seq<Word>, r: Regs, flags: Word)
    requires AtCall(m, r)
    ensures var e := r.esp / 4;
      Saved(m, r, flags) == Stored(m, e - 16,
        [r.gs, r.fs, r.es, r.ds, r.edi, r.esi, r.ebp, 4 * (e - 4), r.ebx, r.edx, r.ecx, r.eax]
        + [0, 0, m[e], KERNEL_CS, flags])
  {
    var e := r.esp / 4;
    assert FrameWords(Resumption(m, r, flags), 4 * (e - 4)) ==
      [r.gs, r.fs, r.es, r.ds, r.edi, r.esi, r.ebp, 4 * (e - 4), r.ebx, r.edx, r.ecx, r.eax]
      + [0, 0, m[e], KERNEL_CS, flags];
  }

  lemma SavedKeeps(m: seq<Word>, r: Regs, flags: Word, k: nat)
    requires AtCall(m, r) && k < |m| && !(r.esp / 4 - 16 <= k <= r.esp / 4)
    ensures |Saved(m, r, flags)| == |m| && Saved(m, r, flags)[k] == m[k]
  {
  }
}
