/** The virtual machine: creation, loading an image, the run loop
    (rocketvm/vm.c). */
module VirtualMachine {
  import opened Isa
  import opened Machine
  import opened FlatMemory
  import opened Processor

  class Vm {
    const cpu: Cpu
    const mem: Memory

    ghost predicate Valid() { cpu.Valid(mem) }

    ghost function State(): Machine.State
      requires Valid()
      reads cpu, cpu.rv, mem.data
    {
      cpu.State(mem)
    }

    constructor ()
      ensures Valid() && fresh(cpu) && fresh(cpu.rv) && fresh(mem) && fresh(mem.data)
      ensures State() == Initial()
    {
      var c := new Cpu();
      var m := new Memory();
      c.rsp := STACK_END;
      cpu, mem := c, m;
    }

    /** The part of `rvm_vm_load` after the file has been read: the size check
        and the copy. */
    method Load(image: seq<Byte>) returns (status: int)
      requires Valid()
      modifies mem.data
      ensures status == if |image| <= 0x10000 then 0 else -1
      ensures State() == if |image| <= 0x10000 then Machine.Load(old(State()), image) else old(State())
    {
      if |image| > MEMORY_SIZE {
        return -1;
      }
      ghost var before := mem.data[..];
      for i := 0 to |image|
        invariant mem.data[..i] == image[..i]
        invariant mem.data[i..] == before[i..]
      {
        mem.data[i] := image[i];
        assert mem.data[..i + 1] == mem.data[..i] + [image[i]];
        assert image[..i + 1] == image[..i] + [image[i]];
        assert mem.data[i + 1..] == mem.data[i..][1..] && before[i + 1..] == before[i..][1..];
      }
      assert mem.data[..] == mem.data[..|image|] + mem.data[|image|..];
      assert mem.data[..] == image + before[|image|..];
      status := 0;
    }

    /** The run loop.  It is specified for the runs that come to an end; a run
        that does not simply never returns in the original. */
    method Run() returns (status: int)
      requires Valid() && Stops(State())
      modifies cpu, cpu.rv, mem.data
      ensures exists n: nat :: State() == Machine.Run(old(State()), n)
      ensures Stopped(State())
      ensures status == if State().halt then 0 else -1
      ensures status == -1 ==> State().rip >= 0x7FFE
    {
      hide Machine.Cycle;
      ghost var start := State();
      ghost var n: nat :| Stopped(Machine.Run(start, n));
      ghost var k: nat := 0;
      while !cpu.halt
        invariant k <= n && State() == Machine.Run(start, k)
        decreases n - k
      {
        ghost var before := State();
        status := cpu.Cycle(mem);
        if Stopped(before) { CycleOfStopped(before); }
        if status == -1 {
          return;
        }
        k := k + 1;
        assert State() == Machine.Run(start, k);
      }
      status := 0;
    }
  }
}
