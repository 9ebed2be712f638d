/** Register names (reg.c): the table, and the search for an id by its name. */
module RegNames {

  const REG_IDS_FIRST := 0x4002
  const REG_LAST_ENUM := 0xc010
  const UNKNOWN := "UNKNOWN_REG_STR"

  datatype RegInfo = RegInfo(id: nat, name: string)

  /* ---- the two searches ---- */

  function NameOf(table: seq<RegInfo>, id: nat): string {
    if table == [] then UNKNOWN
    else if table[0].id == id then table[0].name
    else NameOf(table[1..], id)
  }

  method Reg2Str(table: seq<RegInfo>, id: nat) returns (name: string)
    ensures name == NameOf(table, id)
  {
    for i := 0 to |table|
      invariant NameOf(table, id) == NameOf(table[i..], id)
    {
      assert table[i..][1..] == table[i + 1..];
      if table[i].id == id { return table[i].name; }
    }
    return UNKNOWN;
  }

  // The least id in range that shows this name, or -1.
  ghost predicate Found(table: seq<RegInfo>, name: string, id: int) {
    && (id == -1 || 0x4002 <= id <= 0xc010)
    && (id == -1 ==> forall i :: 0x4002 <= i <= 0xc010 ==> NameOf(table, i) != name)
    && (id >= 0 ==> NameOf(table, id) == name
                    && forall i :: 0x4002 <= i < id ==> NameOf(table, i) != name)
  }

  method IdFromStr(table: seq<RegInfo>, name: string) returns (id: int)
    ensures Found(table, name, id)
  {
    for i := REG_IDS_FIRST to REG_LAST_ENUM + 1
      invariant forall k :: REG_IDS_FIRST <= k < i ==> NameOf(table, k) != name
    {
      var str := Reg2Str(table, i);
      if str == name { return i; }
    }
    return -1;
  }

  /* ---- what they find ---- */

  ghost predicate WellFormed(table: seq<RegInfo>) {
    && (forall i, j :: 0 <= i < j < |table| ==> table[i].id != table[j].id && table[i].name != table[j].name)
    && (forall r :: r in table ==> 0x4002 <= r.id <= 0xc010)
  }

  ghost predicate InTable(table: seq<RegInfo>, id: nat) {
    exists r :: r in table && r.id == id
  }

  lemma {:induction false} NameOfEntry(table: seq<RegInfo>, k: nat)
    requires k < |table| && forall i :: 0 <= i < k ==> table[i].id != table[k].id
    ensures NameOf(table, table[k].id) == table[k].name
  {
    if k > 0 { NameOfEntry(table[1..], k - 1); }
  }

  lemma {:induction false} NameOfStranger(table: seq<RegInfo>, id: nat)
    requires !InTable(table, id)
    ensures NameOf(table, id) == UNKNOWN
  {
    if table != [] {
      assert table[0] in table;
      assert forall r :: r in table[1..] ==> r in table;
      NameOfStranger(table[1..], id);
    }
  }

  // A name that is not the placeholder belongs to an entry.
  lemma {:induction false} NamedEntry(table: seq<RegInfo>, id: nat) returns (k: nat)
    requires NameOf(table, id) != UNKNOWN
    ensures k < |table| && table[k].id == id && table[k].name == NameOf(table, id)
  {
    if table[0].id == id {
      k := 0;
    } else {
      k := NamedEntry(table[1..], id);
      k := k + 1;
    }
  }

  /** For every name but the placeholder, scanning the ids finds the entry of
      that name, and -1 exactly when there is none. */
  lemma ScanIsLookup(table: seq<RegInfo>, name: string, id: int)
    requires WellFormed(table) && name != UNKNOWN && Found(table, name, id)
    ensures id >= 0 <==> exists r :: r in table && r.name == name
    ensures forall r :: r in table && r.name == name ==> id == r.id
  {
    if id >= 0 {
      var k := NamedEntry(table, id);
      assert table[k] in table;
    }
    forall r | r in table && r.name == name
      ensures id == r.id
    {
      var j :| 0 <= j < |table| && table[j] == r;
      NameOfEntry(table, j);
      if id >= 0 {
        var k := NamedEntry(table, id);
        assert k == j;
      }
    }
  }

  /** The placeholder itself is "found", at the least id in range that the table
      does not have; it is -1 only for a table that has them all. */
  lemma PlaceholderScan(table: seq<RegInfo>, id: int)
    requires WellFormed(table) && Found(table, UNKNOWN, id)
    requires forall r :: r in table ==> r.name != UNKNOWN
    ensures id >= 0 ==> !InTable(table, id) && forall i :: REG_IDS_FIRST <= i < id ==> InTable(table, i)
    ensures id == -1 ==> forall i :: REG_IDS_FIRST <= i <= REG_LAST_ENUM ==> InTable(table, i)
  {
    forall i: nat
      ensures NameOf(table, i) == UNKNOWN <==> !InTable(table, i)
    {
      if InTable(table, i) {
        var r :| r in table && r.id == i;
        var j :| 0 <= j < |table| && table[j] == r;
        NameOfEntry(table, j);
      } else {
        NameOfStranger(table, i);
      }
    }
  }
}
