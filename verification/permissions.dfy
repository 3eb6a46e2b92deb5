/** The 9-bit owner/group/other permission model: the access check, the
    chmod mask and the symbolic rendering (codigo_base/utilidades_fs.c:53-153). */
module Permissions {
  import opened Layout

  /** Who is asking: the current user and group, and the user table's
      principal-group lookup. They are set by the command layer. */
  datatype Identity = Identity(user: nat, group: nat, groupOf: nat -> nat)

  /** The three rwx bits that sit `shift` bits up in a mode. */
  function Triplet(mode: bv16, shift: nat): bv16
    requires shift <= 6
  {
    (mode >> shift) & 7
  }

  /** Bit n of a mode, counted from the least significant. */
  predicate ModeBit(mode: bv16, n: nat)
    requires n < 16
  {
    (mode >> n) & 1 == 1
  }

  /** Reference reading of one triplet: some requested bit j (r=2, w=1, x=0)
      is also set in the triplet that starts at `shift`. */
  predicate TripletGrants(mode: bv16, shift: nat, req: bv16)
    requires shift <= 6
  {
    exists j | 0 <= j < 3 :: ModeBit(req, j) && ModeBit(mode, shift + j)
  }

  /** verificar_permissao: the owner, group and other triplets are tried in
      turn and any of them can grant; the other triplet is always consulted. */
  predicate Allowed(who: Identity, owner: nat, mode: bv16, req: bv16)
  {
    || (who.user == owner && Triplet(mode, ShiftOwner) & req != 0)
    || (who.group == who.groupOf(owner) && Triplet(mode, ShiftGroup) & req != 0)
    || Triplet(mode, ShiftOther) & req != 0
  }

  lemma TripletTest(mode: bv16, shift: nat, req: bv16)
    requires shift == 0 || shift == 3 || shift == 6
    ensures Triplet(mode, shift) & req != 0 <==> TripletGrants(mode, shift, req)
  {
    var t := Triplet(mode, shift);
    if t & req != 0 {
      BitOfNonZeroAnd(t, req);
      var j :| 0 <= j < 3 && ModeBit(req, j) && ModeBit(t, j);
      ShiftedBit(mode, shift, j);
      assert ModeBit(req, j) && ModeBit(mode, shift + j);
    }
    if TripletGrants(mode, shift, req) {
      var j :| 0 <= j < 3 && ModeBit(req, j) && ModeBit(mode, shift + j);
      ShiftedBit(mode, shift, j);
      BitOfAnd(t, req, j);
    }
  }

  lemma BitOfNonZeroAnd(t: bv16, req: bv16)
    requires t & 7 == t && t & req != 0
    ensures exists j | 0 <= j < 3 :: ModeBit(req, j) && ModeBit(t, j)
  {
    if ModeBit(req, 0) && ModeBit(t, 0) {
    } else if ModeBit(req, 1) && ModeBit(t, 1) {
    } else {
      assert ModeBit(req, 2) && ModeBit(t, 2);
    }
  }

  lemma BitOfAnd(t: bv16, req: bv16, j: nat)
    requires j < 3 && ModeBit(req, j) && ModeBit(t, j)
    ensures t & req != 0
  {
  }

  lemma ShiftedBit(mode: bv16, shift: nat, j: nat)
    requires (shift == 0 || shift == 3 || shift == 6) && j < 3
    ensures ModeBit(Triplet(mode, shift), j) == ModeBit(mode, shift + j)
  {
    if shift == 0 {
      if j == 0 {} else if j == 1 {} else {}
    } else if shift == 3 {
      if j == 0 {} else if j == 1 {} else {}
    } else {
      if j == 0 {} else if j == 1 {} else {}
    }
  }

  /** The access check, restated against the reference triplet test. */
  lemma AllowedIff(who: Identity, owner: nat, mode: bv16, req: bv16)
    ensures Allowed(who, owner, mode, req) <==>
      || (who.user == owner && TripletGrants(mode, ShiftOwner, req))
      || (who.group == who.groupOf(owner) && TripletGrants(mode, ShiftGroup, req))
      || TripletGrants(mode, ShiftOther, req)
  {
    TripletTest(mode, ShiftOwner, req);
    TripletTest(mode, ShiftGroup, req);
    TripletTest(mode, ShiftOther, req);
  }

  /** Mode 000 denies every request to every user, root included. */
  lemma ZeroModeDeniesAll(who: Identity, owner: nat, req: bv16)
    ensures !Allowed(who, owner, 0, req)
  {
  }

  /** Mode 0644 lets any user read. */
  lemma FileModeReadableByAll(who: Identity, owner: nat)
    ensures Allowed(who, owner, FileMode, PermR)
  {
  }

  /** A user who is neither the owner nor in the owner's group gets exactly
      what the other triplet gives. */
  lemma StrangerUsesOther(who: Identity, owner: nat, mode: bv16, req: bv16)
    requires who.user != owner && who.group != who.groupOf(owner)
    ensures Allowed(who, owner, mode, req) <==> TripletGrants(mode, ShiftOther, req)
  {
    TripletTest(mode, ShiftOther, req);
  }

  /** The triplets are OR-ed: an owner whose own triplet lacks the bit is
      still let in by the other triplet (mode 0007 lets the owner read). */
  lemma OwnerFallsThroughToOther(who: Identity)
    ensures Allowed(who, who.user, 7, PermR)
    ensures Triplet(7, ShiftOwner) & PermR == 0
  {
  }

  /** chmod keeps only the nine permission bits. */
  function ChmodMode(requested: bv16): (m: bv16)
    ensures m <= 0x1FF
    ensures forall n | 0 <= n < 9 :: ModeBit(m, n) == ModeBit(requested, n)
  {
    requested & 0x1FF
  }

  function TripletChars(t: bv16): string {
    [ if t & PermR != 0 then 'r' else '-',
      if t & PermW != 0 then 'w' else '-',
      if t & PermX != 0 then 'x' else '-' ]
  }

  lemma TripletCharsBits(mode: bv16, shift: nat)
    requires shift == 0 || shift == 3 || shift == 6
    ensures var c := TripletChars(Triplet(mode, shift));
      && (c[0] == if ModeBit(mode, shift + 2) then 'r' else '-')
      && (c[1] == if ModeBit(mode, shift + 1) then 'w' else '-')
      && (c[2] == if ModeBit(mode, shift) then 'x' else '-')
  {
  }

  /** formatar_permissoes: character n is "rwx"[n % 3] when bit 8 - n is set
      and '-' otherwise, owner triplet first. */
  function Symbolic(mode: bv16): (s: string)
    ensures |s| == 9
    ensures forall n | 0 <= n < 9 :: s[n] == if ModeBit(mode, 8 - n) then "rwx"[n % 3] else '-'
  {
    var s := TripletChars(Triplet(mode, ShiftOwner)) + TripletChars(Triplet(mode, ShiftGroup))
      + TripletChars(Triplet(mode, ShiftOther));
    TripletCharsBits(mode, ShiftOwner);
    TripletCharsBits(mode, ShiftGroup);
    TripletCharsBits(mode, ShiftOther);
    assert forall n | 0 <= n < 9 :: s[n] == if ModeBit(mode, 8 - n) then "rwx"[n % 3] else '-' by {
      forall n | 0 <= n < 9
        ensures s[n] == if ModeBit(mode, 8 - n) then "rwx"[n % 3] else '-'
      {
        if n < 3 {
          assert s[n] == TripletChars(Triplet(mode, ShiftOwner))[n];
        } else if n < 6 {
          assert s[n] == TripletChars(Triplet(mode, ShiftGroup))[n - 3];
        } else {
          assert s[n] == TripletChars(Triplet(mode, ShiftOther))[n - 6];
        }
      }
    }
    s
  }

  /** Bits above the ninth never show in the rendering. */
  lemma SymbolicIgnoresHighBits(mode: bv16)
    ensures Symbolic(mode) == Symbolic(ChmodMode(mode))
  {
    var a, b := Symbolic(mode), Symbolic(ChmodMode(mode));
    assert forall n | 0 <= n < 9 :: a[n] == b[n];
  }

  lemma SymbolicDefaults()
    ensures Symbolic(DirMode) == "rwxr-xr-x"
    ensures Symbolic(FileMode) == "rw-r--r--"
  {
  }
}
