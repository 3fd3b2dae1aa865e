/** What the operations of a symbolic mode do to each bit of a mode. */
module ModeBits {
  import opened ModeCommands

  /** The bit is a permission of a class of users named by `who`, all of them if none is named; a class is named by
      the bit that lets it read. */
  predicate Chosen(who: Mode, b: Bit) {
    if b < 3 then who == {} || 2 in who
    else if b < 6 then who == {} || 5 in who
    else if b < 9 then who == {} || 8 in who
    else false
  }

  /** The same permission of the class that is copied: u, g or o. */
  function CopyOf(op: char, b: Bit): Bit {
    if op == 'u' then 6 + b % 3 else if op == 'g' then 3 + b % 3 else b % 3
  }

  /** Only bits of `who` may change, or if none is named only those that the mask lets through. */
  predicate Reached(who: Mode, mask: Mode, b: Bit) {
    if who == {} then b in mask else b in who
  }

  /** X is for directories and for files that someone may execute. */
  predicate MayExecute(omode: Mode) {
    14 in omode || 6 in omode || 3 in omode || 0 in omode
  }

  /** The operators of chmod with permissions. */
  lemma PermissionBits(op: char, who: Mode, perm: Mode, mask: Mode, omode: Mode, m: Mode, b: Bit)
    requires op == '=' || op == '+' || op == '-' || op == 'X'
    ensures b in Intended(op, who, Bits(perm), mask, omode, m) <==>
      var given := b in perm && Reached(who, mask, b);
      if op == '+' then b in m || given
      else if op == '-' then b in m && !given
      else if op == 'X' then b in m || (given && MayExecute(omode))
      else given || (b in m && if who == {} then b == 9 || b > 11 else b !in who)
  {
    WhenXApplies(omode);
    hide XApplies;
  }

  lemma WhenXApplies(omode: Mode)
    ensures XApplies(omode) <==> MayExecute(omode)
  {
    var s := omode * X_TEST;
    assert forall b: Bit :: b in s <==> b in omode && (b == 0 || b == 3 || b == 6 || b == 14);
    if XApplies(omode) { var b :| b in s; }
  }

  /** The operators of chmod with the permissions of a class of users. */
  lemma CopiedBits(op: char, who: Mode, o: char, mask: Mode, omode: Mode, m: Mode, b: Bit)
    requires (op == 'u' || op == 'g' || op == 'o') && (o == '+' || o == '-' || o == '=')
    ensures b in Intended(op, who, Op(o), mask, omode, m) <==>
      if !Chosen(who, b) || (who == {} && b !in mask) then b in m
      else if o == '+' then b in m || CopyOf(op, b) in m
      else if o == '-' then b in m && CopyOf(op, b) !in m
      else CopyOf(op, b) in m
  {
    var v, cs := Taken(op, m), Classes(who);
    TakenBits(op, m);
    SpreadBits(v, cs, b);
    SpreadBits(S_IRWXO, cs, b);
    ClassesAre(who, b);
    WhatIsCopied(op, who, o, mask, omode, m, b);
    CopyOfRest(op, b);
    hide *;
    assert (b % 3) as Bit in S_IRWXO by { PermissionIs(b); }
  }

  lemma PermissionIs(b: Bit)
    ensures (b % 3) as Bit in S_IRWXO
  {
  }

  lemma CopyOfRest(op: char, b: Bit)
    ensures CopyOf(op, (b % 3) as Bit) == CopyOf(op, b)
  {
  }

  lemma ClassesAre(who: Mode, b: Bit)
    ensures Chosen(who, b)
      <==> (b < 3 && OBits in Classes(who)) || (3 <= b < 6 && GBits in Classes(who))
           || (6 <= b < 9 && UBits in Classes(who))
  {
  }

  lemma WhatIsCopied(op: char, who: Mode, o: char, mask: Mode, omode: Mode, m: Mode, b: Bit)
    requires o == '+' || o == '-' || o == '='
    ensures var given, all := b in Spread(Taken(op, m), Classes(who)), b in Spread(S_IRWXO, Classes(who));
      b in Intended(op, who, Op(o), mask, omode, m) <==>
        if who == {} && b !in mask then b in m
        else if o == '+' then b in m || given
        else if o == '-' then b in m && !given
        else given || (b in m && !all)
  {
    hide Taken, Spread, Classes;
  }

  lemma TakenBits(op: char, m: Mode)
    requires op == 'u' || op == 'g' || op == 'o'
    ensures forall b: Bit :: b in Taken(op, m) <==> b < 3 && CopyOf(op, b) in m
  {
    forall b: Bit
      ensures b in Taken(op, m) <==> b < 3 && CopyOf(op, b) in m
    {
      ShiftedDown(m * S_IRWXU, 6, b);
      ShiftedDown(m * S_IRWXG, 3, b);
    }
  }

  lemma ShiftedDown(v: Mode, n: nat, b: Bit)
    ensures b in ShiftDown(v, n) <==> b + n < 32 && (b + n) as Bit in v
  {
    if b + n < 32 && (b + n) as Bit in v {
      var c := (b + n) as Bit;
      assert c in v && c >= n && (c - n) as Bit == b;
    }
  }

  lemma SpreadBits(v: Mode, cs: set<Cmd2>, b: Bit)
    requires forall k: Bit :: k in v ==> k < 3
    ensures b in Spread(v, cs) <==>
      b % 3 in v && ((b < 3 && OBits in cs) || (3 <= b < 6 && GBits in cs) || (6 <= b < 9 && UBits in cs))
  {
  }
}
