/** The schedule kept in the sixteen words of the block itself, as section 6.1.3 of FIPS 180-4
    allows: the step that Gladman, Reid, Oryx and Google all take before rounds 16 to 79. */
module Rolling {
  import opened Words
  import opened Fips180

  method NextInPlace(mem: array<byte>, base: nat, i: nat, ghost m: Block) returns (w: word)
    requires base + 64 <= mem.Length && 16 <= i && Window(View(mem[..], base), m, i)
    modifies mem
    ensures w == W(m, i) && Window(View(mem[..], base), m, i + 1)
    ensures mem[..base] == old(mem[..base]) && mem[base + 64..] == old(mem[base + 64..])
  {
    hide Window, NextWord, View, W;
    ghost var v: Block := View(mem[..], base);
    w := Mixed(mem, base, i);
    StoreWord(mem, base, i % 16, w);
    WindowStep(v, m, i);
  }

  method Mixed(mem: array<byte>, base: nat, i: nat) returns (w: word)
    requires base + 64 <= mem.Length
    ensures w == NextWord(View(mem[..], base), i)
  {
    hide View, Rotl;
    var p := LoadWord(mem, base, (i + 13) % 16);
    var q := LoadWord(mem, base, (i + 8) % 16);
    var r := LoadWord(mem, base, (i + 2) % 16);
    var s := LoadWord(mem, base, i % 16);
    w := Rotl(p ^ q ^ r ^ s, 1);
  }

  /** Before round 16 the word in place is the one of the schedule. */
  method FirstWord(mem: array<byte>, base: nat, i: nat, ghost m: Block) returns (w: word)
    requires base + 64 <= mem.Length && i < 16 && Window(View(mem[..], base), m, i)
    ensures w == W(m, i) && Window(View(mem[..], base), m, i + 1)
  {
    hide View;
    w := LoadWord(mem, base, i);
    WindowEarly(View(mem[..], base), m, i);
  }
}
