/** pw_sb_t, the bounded string builder, as a refinement of an unbounded one. */
module Builder {
  import opened Bytes

  /** How many characters a buffer of `cap` bytes can hold besides its terminator. */
  function Room(cap: nat): nat {
    if cap == 0 then 0 else cap - 1
  }

  class StringBuilder {
    const buf: array<char>
    var len: nat
    var overflow: bool
    ghost var text: string // what the unbounded builder holds

    ghost predicate Valid()
      reads this, buf
    {
      && len == |Take(text, Room(buf.Length))|
      && buf[..len] == Take(text, Room(buf.Length))
      && (buf.Length > 0 ==> buf[len] == '\0')
      && (|text| > Room(buf.Length) ==> overflow)
      && (overflow ==> |text| >= Room(buf.Length))
    }

    constructor (cap: nat)
      ensures Valid() && fresh(buf) && buf.Length == cap
      ensures text == "" && !overflow
    {
      buf := new char[cap];
      len, overflow, text := 0, false, "";
      new;
      if cap > 0 { buf[0] := '\0'; }
    }

    method Putc(c: char)
      requires Valid()
      modifies this, buf
      ensures Valid() && text == old(text) + [c]
      ensures overflow == (old(overflow) || |old(text)| >= Room(buf.Length))
      ensures overflow <==> |text| > Room(buf.Length) // exact right after a write
    {
      text := text + [c];
      if len + 1 >= buf.Length {
        overflow := true;
        assert Take(text, Room(buf.Length)) == Take(old(text), Room(buf.Length));
        return;
      }
      buf[len] := c;
      len := len + 1;
      buf[len] := '\0';
    }

    method Puts(s: string)
      requires Valid()
      modifies this, buf
      ensures Valid() && text == old(text) + s
    {
      for i := 0 to |s|
        invariant Valid() && text == old(text) + s[..i]
      {
        Putc(s[i]);
        assert s[..i + 1] == s[..i] + [s[i]];
      }
      assert s[..|s|] == s;
    }

    /** Takes back everything written since the length was `mark`. */
    method Rollback(mark: nat, ghost saved: string)
      requires Valid() && buf.Length > 0
      requires saved <= text && mark == |Take(saved, Room(buf.Length))|
      requires overflow ==> |saved| >= Room(buf.Length)
      modifies this, buf
      ensures Valid() && text == saved && overflow == old(overflow)
    {
      assert Take(saved, Room(buf.Length)) == Take(text, Room(buf.Length))[..mark];
      len := mark;
      buf[mark] := '\0';
      text := saved;
      assert buf[..len] == old(buf[..len])[..mark];
    }
  }
}
