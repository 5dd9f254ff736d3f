/** The interrupt stubs of isr.asm on a machine stack, instruction by instruction, under any nesting. */
module Interrupts {
  import opened Bytes

  /** The registers saved by pushad, without esp. */
  datatype Regs = Regs(eax: word, ecx: word, edx: word, ebx: word, ebp: word, esi: word, edi: word)

  /** What the processor pushes on an interrupt without a privilege change, and what iretd takes back. */
  datatype Frame = Frame(eip: word, cs: word, eflags: word)

  /**
   * One interrupt: its number, whether the processor pushes an error code, and what the C handler does before it
   * returns result. A handler obeys the C calling convention, but it may do anything with its arguments, with the
   * stack below it and with the registers, and it may itself be interrupted.
   */
  datatype Call = Call(number: word, frame: Frame, hasError: bool, error: word, acts: seq<Act>, result: word)

  datatype Act =
    | Argument(k: nat, v: word)        // the handler overwrites argument k, counted from one
    | Local(k: nat, v: word)           // it writes k dwords below its return address
    | Registers(r: Regs)               // it uses the registers
    | Nested(depth: nat, call: Call)   // an interrupt arrives while its frame is depth dwords deep

  const ARGUMENTS: nat := 9

  /** Dwords of stack an interrupt takes: frame, error code, BUFFER, two register blocks, number, return address. */
  function Need(c: Call): nat
    decreases c, 1
  {
    24 + NeedActs(c.acts)
  }

  function NeedActs(acts: seq<Act>): nat
    decreases acts, 0
  {
    if acts == [] then 0 else Max(NeedAct(acts[0]), NeedActs(acts[1..]))
  }

  function NeedAct(a: Act): nat
    decreases a, 0
  {
    match a
    case Argument(k, v) => 0
    case Local(k, v) => k
    case Registers(r) => 0
    case Nested(depth, call) => depth + Need(call)
  }

  /** Arguments are counted from one to nine in every handler of the tree. */
  predicate Sound(c: Call)
    decreases c, 1
  {
    SoundActs(c.acts)
  }

  predicate SoundActs(acts: seq<Act>)
    decreases acts, 0
  {
    acts == [] || (SoundAct(acts[0]) && SoundActs(acts[1..]))
  }

  predicate SoundAct(a: Act)
    decreases a, 0
  {
    match a
    case Argument(k, v) => 1 <= k <= ARGUMENTS
    case Local(k, v) => 1 <= k
    case Registers(r) => true
    case Nested(depth, call) => Sound(call)
  }

  /** The numbers of the interrupts a call serves, its own first, in the order in which they arrive. */
  function Numbers(c: Call): (ns: seq<word>)
    decreases c, 1
  {
    [c.number] + NumbersOf(c.acts)
  }

  function NumbersOf(acts: seq<Act>): seq<word>
    decreases acts, 0
  {
    if acts == [] then [] else NumbersIn(acts[0]) + NumbersOf(acts[1..])
  }

  function NumbersIn(a: Act): seq<word>
    decreases a, 0
  {
    match a
    case Nested(depth, call) => Numbers(call)
    case _ => []
  }

  class Cpu {
    const ram: array<word>   // the stack, one dword an index; it grows towards index 0
    var r: Regs
    var esp: nat
    var buffer: word         // the word BUFFER of isr.asm
    ghost var served: seq<word>   // the numbers that handlers have found in their last argument

    constructor (size: nat)
      ensures fresh(ram) && ram.Length == size && esp == size && served == []
    {
      ram := new word[size](_ => 0);
      served := [];
      r := Regs(0, 0, 0, 0, 0, 0, 0);
      esp := size;
      buffer := 0;
    }

    method Push(v: word)
      requires 0 < esp <= ram.Length
      modifies `esp, ram
      ensures esp == old(esp) - 1 && ram[..] == old(ram[..])[esp := v]
    {
      esp := esp - 1;
      ram[esp] := v;
    }

    method Pop() returns (v: word)
      requires esp < ram.Length
      modifies `esp
      ensures esp == old(esp) + 1 && v == ram[old(esp)]
    {
      v := ram[esp];
      esp := esp + 1;
    }

    /** The eight dwords at i are the block that pushad leaves for registers s and stack pointer top. */
    ghost predicate Block(i: nat, s: Regs, top: nat)
      reads this, ram
    {
      && i + 8 <= ram.Length
      && ram[i] == s.edi && ram[i + 1] == s.esi && ram[i + 2] == s.ebp && ram[i + 3] == Wrap(top)
      && ram[i + 4] == s.ebx && ram[i + 5] == s.edx && ram[i + 6] == s.ecx && ram[i + 7] == s.eax
    }

    method Pushad()
      requires 8 <= esp <= ram.Length
      modifies `esp, ram
      ensures esp == old(esp) - 8 && Block(esp, r, old(esp))
      ensures ram[esp] == r.edi && ram[esp + 1] == r.esi && ram[esp + 2] == r.ebp && ram[esp + 3] == Wrap(old(esp))
      ensures ram[esp + 4] == r.ebx && ram[esp + 5] == r.edx && ram[esp + 6] == r.ecx && ram[esp + 7] == r.eax
      ensures forall i :: old(esp) <= i < ram.Length ==> ram[i] == old(ram[i])
    {
      var top := Wrap(esp);
      Push(r.eax);
      Push(r.ecx);
      Push(r.edx);
      Push(r.ebx);
      Push(top);
      Push(r.ebp);
      Push(r.esi);
      Push(r.edi);
    }

    /** popad skips the saved stack pointer. */
    method Popad()
      requires esp + 8 <= ram.Length
      modifies `esp, `r
      ensures esp == old(esp) + 8
      ensures r == Regs(ram[old(esp) + 7], ram[old(esp) + 6], ram[old(esp) + 5], ram[old(esp) + 4],
                        ram[old(esp) + 2], ram[old(esp) + 1], ram[old(esp)])
    {
      var edi := Pop();
      var esi := Pop();
      var ebp := Pop();
      var skipped := Pop();
      var ebx := Pop();
      var edx := Pop();
      var ecx := Pop();
      var eax := Pop();
      r := Regs(eax, ecx, edx, ebx, ebp, esi, edi);
    }

    /**
     * An interrupt from the processor's pushes to iretd. Whatever happens in the handler: the stack pointer, the
     * saved frame, everything above it, every register but eax, and BUFFER are as before; eax is the result.
     */
    method Interrupt(c: Call) returns (back: Frame)
      requires Sound(c) && Need(c) <= esp <= ram.Length
      modifies this, ram
      ensures back == c.frame && esp == old(esp) && buffer == old(buffer)
      ensures r == old(r).(eax := c.result) && served == old(served) + Numbers(c)
      ensures forall i :: old(esp) <= i < ram.Length ==> ram[i] == old(ram[i])
      decreases c, 2
    {
      ghost var s, b := r, buffer;
      Arrive(c);
      CommonHandle(c, s, b);
      back := Iretd();
    }

    /** The processor's pushes and those of the macro, down to the jump to common_handle. */
    method Arrive(c: Call)
      requires 14 <= esp <= ram.Length
      modifies `esp, ram
      ensures esp == old(esp) - 14 && ram[esp] == c.number && Block(esp + 1, r, esp + 9) && ram[esp + 9] == buffer
      ensures ram[esp + 10] == if c.hasError then c.error else 0
      ensures ram[esp + 11] == c.frame.eip && ram[esp + 12] == c.frame.cs && ram[esp + 13] == c.frame.eflags
      ensures forall i :: old(esp) <= i < ram.Length ==> ram[i] == old(ram[i])
    {
      PushFrame(c);
      Push(buffer);
      Pushad();
      Push(c.number);
    }

    method PushFrame(c: Call)
      requires 4 <= esp <= ram.Length
      modifies `esp, ram
      ensures esp == old(esp) - 4
      ensures ram[esp] == if c.hasError then c.error else 0
      ensures ram[esp + 1] == c.frame.eip && ram[esp + 2] == c.frame.cs && ram[esp + 3] == c.frame.eflags
      ensures forall i :: old(esp) <= i < ram.Length ==> ram[i] == old(ram[i])
    {
      Push(c.frame.eflags);
      Push(c.frame.cs);
      Push(c.frame.eip);
      if c.hasError {
        Push(c.error);
      } else {
        Push(0);   // no_error pushes a dummy in its place
      }
    }

    method Iretd() returns (back: Frame)
      requires esp + 3 <= ram.Length
      modifies `esp
      ensures esp == old(esp) + 3
      ensures back == Frame(ram[old(esp)], ram[old(esp) + 1], ram[old(esp) + 2])
    {
      var eip := Pop();
      var cs := Pop();
      var eflags := Pop();
      back := Frame(eip, cs, eflags);
    }

    /** common_handle, up to but not including iretd. */
    method CommonHandle(c: Call, ghost s: Regs, ghost b: word)
      requires Sound(c) && 9 + NeedActs(c.acts) <= esp && esp + 11 <= ram.Length
      requires r == s && ram[esp] == c.number && Block(esp + 1, s, esp + 9) && ram[esp + 9] == b
      modifies this, ram
      ensures esp == old(esp) + 11 && buffer == b && r == s.(eax := c.result)
      ensures served == old(served) + Numbers(c)
      ensures forall i :: esp <= i < ram.Length ==> ram[i] == old(ram[i])
      decreases c, 1
    {
      ghost var top := esp + 9;
      Pushad();
      Push(0);                 // call: the return address
      Handler(c, s);
      var address := Pop();    // ret
      buffer := r.eax;
      Popad();
      esp := esp + 1;
      assert Block(esp, s, top);
      Popad();
      r := r.(eax := buffer);
      buffer := Pop();
      esp := esp + 1;
    }

    /** interrupt_handler: its arguments are the registers of the interrupted code and the interrupt number. */
    method Handler(c: Call, ghost s: Regs)
      requires Sound(c) && NeedActs(c.acts) <= esp && esp + 10 <= ram.Length
      requires Block(esp + 1, s, esp + 9) && ram[esp + 9] == c.number
      modifies this, ram
      ensures esp == old(esp) && r.eax == c.result && served == old(served) + Numbers(c)
      ensures r.ebx == old(r.ebx) && r.ebp == old(r.ebp) && r.esi == old(r.esi) && r.edi == old(r.edi)
      ensures ram[esp] == old(ram[esp])
      ensures forall i :: esp + 10 <= i < ram.Length ==> ram[i] == old(ram[i])
      decreases c, 0
    {
      var saved := r;
      served := served + [ram[esp + ARGUMENTS]];
      Perform(c.acts);
      r := r.(eax := c.result, ebx := saved.ebx, ebp := saved.ebp, esi := saved.esi, edi := saved.edi);
    }

    /** The acts of a handler, one after the other. */
    method Perform(acts: seq<Act>)
      requires SoundActs(acts) && NeedActs(acts) <= esp && esp + 10 <= ram.Length
      modifies this, ram
      ensures esp == old(esp) && ram[esp] == old(ram[esp])
      ensures forall i :: esp + 10 <= i < ram.Length ==> ram[i] == old(ram[i])
      ensures served == old(served) + NumbersOf(acts)
      decreases acts, 0
    {
      if acts != [] {
        PerformOne(acts[0]);
        Perform(acts[1..]);
      }
    }

    /** One act; an argument, a local or the registers change as it says, and an interrupt changes eax alone. */
    method PerformOne(a: Act)
      requires SoundAct(a) && NeedAct(a) <= esp && esp + 10 <= ram.Length
      modifies this, ram
      ensures esp == old(esp) && ram[esp] == old(ram[esp])
      ensures forall i :: esp + 10 <= i < ram.Length ==> ram[i] == old(ram[i])
      ensures a.Argument? ==> ram[..] == old(ram[..])[esp + a.k := a.v] && r == old(r) && buffer == old(buffer)
      ensures a.Local? ==> ram[..] == old(ram[..])[esp - a.k := a.v] && r == old(r) && buffer == old(buffer)
      ensures a.Registers? ==> ram[..] == old(ram[..]) && r == a.r && buffer == old(buffer)
      ensures a.Nested? ==>
        && r == old(r).(eax := a.call.result) && buffer == old(buffer)
        && forall i :: esp - a.depth <= i < ram.Length ==> ram[i] == old(ram[i])
      ensures served == old(served) + NumbersIn(a)
      decreases a, 0
    {
      match a {
        case Argument(k, v) => ram[esp + k] := v;
        case Local(k, v) => ram[esp - k] := v;
        case Registers(s) => r := s;
        case Nested(depth, call) =>
          esp := esp - depth;
          var back := Interrupt(call);
          esp := esp + depth;
      }
    }
  }
}
