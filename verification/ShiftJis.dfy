/**
 Telling the two halves of a double-byte Shift_JIS character apart. Text is lexed from
 the left: a byte in the lead range takes the next byte with it. The two scans look at
 the bytes before a position instead and go by the parity of a run of lead-range bytes.
 */
module ShiftJis {
  import opened CInt

  /** The lead range of the scans (wider than Annex 1 of JIS X 0208:1997 assigns). */
  predicate Lead(c: u8) { 0x81 <= c <= 0x9f || 0xe0 <= c <= 0xfc }

  datatype Role = Single | First | Second

  /** The role of the byte at pos when lexing starts a character at `from`. */
  function RoleFrom(s: seq<u8>, from: nat, pos: nat): Role
    requires from <= pos < |s|
    decreases pos - from
  {
    if Lead(s[from]) then
      if pos == from then First
      else if pos == from + 1 then Second
      else RoleFrom(s, from + 2, pos)
    else if pos == from then Single
    else RoleFrom(s, from + 1, pos)
  }

  function RoleOf(s: seq<u8>, pos: nat): Role
    requires pos < |s|
  {
    RoleFrom(s, 0, pos)
  }

  /** The sixty bytes of the lead range: all but the first of one row of 32, and the first 29 of another. */
  lemma LeadRange(c: u8)
    ensures Lead(c) <==> (c / 32 == 4 && c % 32 != 0) || (c / 32 == 7 && c % 32 < 29)
  {
  }

  /**
   The lexer, character by character: a byte outside the range before a text, or a lead byte
   with any byte behind it, is a character of its own and leaves the roles of the text.
   */
  lemma Lexed(single: u8, lead: u8, any: u8, s: seq<u8>, pos: nat)
    requires pos < |s| && !(0x81 <= single <= 0x9f || 0xe0 <= single <= 0xfc)
    requires 0x81 <= lead <= 0x9f || 0xe0 <= lead <= 0xfc
    ensures RoleOf([single] + s, 0) == Single && RoleOf([single] + s, pos + 1) == RoleOf(s, pos)
    ensures RoleOf([lead, any] + s, 0) == First && RoleOf([lead, any] + s, 1) == Second
    ensures RoleOf([lead, any] + s, pos + 2) == RoleOf(s, pos)
    ensures RoleOf([lead], 0) == First
  {
    RoleBehind([single], s, 0, pos);
    RoleBehind([lead, any], s, 0, pos);
  }

  lemma {:induction false} RoleBehind(front: seq<u8>, s: seq<u8>, from: nat, pos: nat)
    requires from <= pos < |s|
    ensures RoleFrom(front + s, |front| + from, |front| + pos) == RoleFrom(s, from, pos)
    decreases pos - from
  {
    assert (front + s)[|front| + from] == s[from];
    if from == pos || (Lead(s[from]) && pos == from + 1) {
    } else {
      RoleBehind(front, s, if Lead(s[from]) then from + 2 else from + 1, pos);
    }
  }

  /** The length of the run of lead-range bytes that ends before pos. */
  function RunBefore(s: seq<u8>, pos: nat): (n: nat)
    requires pos <= |s|
    ensures n <= pos
  {
    if pos == 0 || !Lead(s[pos - 1]) then 0 else RunBefore(s, pos - 1) + 1
  }

  /** The parity of that run. */
  function Parity(s: seq<u8>, pos: nat): (r: nat)
    requires pos <= |s|
    ensures r <= 1
  {
    if pos == 0 || !Lead(s[pos - 1]) then 0 else 1 - Parity(s, pos - 1)
  }

  lemma {:induction false} ParityIs(s: seq<u8>, pos: nat)
    requires pos <= |s|
    ensures Parity(s, pos) == RunBefore(s, pos) % 2
  {
    if pos == 0 {
    } else {
      ParityIs(s, pos - 1);
    }
  }

  /** A trail byte is one whose predecessor leads and is not itself a trail byte. */
  lemma {:induction false} SecondIff(s: seq<u8>, from: nat, pos: nat)
    requires from <= pos < |s| && pos > 0
    ensures RoleFrom(s, from, pos) == Second <==> from < pos && Lead(s[pos - 1]) && RoleFrom(s, from, pos - 1) != Second
    decreases pos - from
  {
    if Lead(s[from]) {
      if pos >= from + 2 {
        SecondIff(s, from + 2, pos);
      }
    } else if pos > from {
      SecondIff(s, from + 1, pos);
    }
  }

  /** Forward lexing agrees with the parity of the run before. */
  lemma {:induction false} ParityOfRun(s: seq<u8>, pos: nat)
    requires pos < |s|
    ensures RoleOf(s, pos) == Second <==> RunBefore(s, pos) % 2 == 1
    ensures RoleOf(s, pos) == First <==> Lead(s[pos]) && RunBefore(s, pos) % 2 == 0
  {
    ParityIs(s, pos);
    RoleParity(s, pos);
  }

  lemma {:induction false} RoleParity(s: seq<u8>, pos: nat)
    requires pos < |s|
    ensures RoleOf(s, pos) == Second <==> Parity(s, pos) == 1
    ensures RoleOf(s, pos) == First <==> Parity(s, pos + 1) == 1
  {
    LeadRole(s, 0, pos);
    if pos == 0 {
    } else {
      SecondIff(s, 0, pos);
      RoleParity(s, pos - 1);
    }
  }

  lemma {:induction false} LeadRole(s: seq<u8>, from: nat, pos: nat)
    requires from <= pos < |s|
    ensures RoleFrom(s, from, pos) == First <==> Lead(s[pos]) && RoleFrom(s, from, pos) != Second
    decreases pos - from
  {
    if Lead(s[from]) {
      if pos >= from + 2 {
        LeadRole(s, from + 2, pos);
      }
    } else if pos > from {
      LeadRole(s, from + 1, pos);
    }
  }

  predicate AllLead(s: seq<u8>, n: nat)
    requires n <= |s|
  {
    forall i :: 0 <= i < n ==> Lead(s[i])
  }

  /** kanji2nd: the parity of the run before; 1 exactly for trail bytes, at every position of every text. */
  method Kanji2nd(str: seq<u8>, pos: int) returns (ret: nat)
    requires pos <= |str|
    ensures 0 <= pos < |str| ==> (ret == 1 <==> RoleOf(str, pos) == Second)
    ensures ret == if pos < 0 then 0 else RunBefore(str, pos) % 2
  {
    var p := pos;
    ret := 0;
    while p > 0
      invariant p <= pos && ret <= 1 && (pos < 0 ==> p == pos && ret == 0)
      invariant 0 <= pos ==> 0 <= p && Parity(str, pos) == if ret == 0 then Parity(str, p) else 1 - Parity(str, p)
    {
      p := p - 1;
      if !Lead(str[p]) {
        break;
      }
      ret := 1 - ret;
    }
    if 0 <= pos {
      ParityIs(str, pos);
      if pos < |str| {
        RoleParity(str, pos);
      }
    }
  }

  /**
   kanji1st: never looks at index 0. It tells lead bytes exactly when some byte up to the
   position is outside the lead range, and it is wrong whenever none is.
   */
  method Kanji1st(str: seq<u8>, pos: nat) returns (ret: nat)
    requires pos < |str|
    ensures ret <= 1
    ensures (ret == 1 <==> RoleOf(str, pos) == First) <==> !AllLead(str, pos + 1)
  {
    var p := pos;
    ret := 0;
    while p > 0
      invariant 0 <= p <= pos && ret <= 1
      invariant Parity(str, pos + 1) == if ret == 0 then Parity(str, p + 1) else 1 - Parity(str, p + 1)
      invariant forall i :: p < i <= pos ==> Lead(str[i])
    {
      if !Lead(str[p]) {
        break;
      }
      ret := 1 - ret;
      p := p - 1;
    }
    RoleParity(str, pos);
    assert AllLead(str, pos + 1) <==> p == 0 && Lead(str[0]);
  }

  /** A text on which kanji1st errs: it denies the lead byte that the text begins with. */
  lemma FirstByteLeads()
    ensures RoleOf([0x83, 0x41], 0) == First && AllLead([0x83, 0x41], 1)
  {
  }
}
