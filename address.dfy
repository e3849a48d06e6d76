/**
 * Address normalisation and the address-to-index table (delivery_logic.py).
 * Characters are treated as ASCII: a "word" character of `[\W_]` is an ASCII
 * letter or digit, and `str.strip` removes the ASCII whitespace characters.
 */
module Address {
  import opened Wrappers

  /** The hub's street address, where every truck starts and ends (written as a concatenation to keep proofs about it short). */
  const Hub: string := "4001 South" + " 700 East"

  /** Characters Python's `str.strip()` removes, restricted to ASCII. */
  predicate IsSpace(c: char) {
    9 <= c as int <= 13 || 28 <= c as int <= 32
  }

  /** Characters NOT matched by `[\W_]`, restricted to ASCII. */
  predicate IsAlnum(c: char) {
    'a' <= c <= 'z' || 'A' <= c <= 'Z' || '0' <= c <= '9'
  }

  function LowerChar(c: char): char {
    if 'A' <= c <= 'Z' then (c as int + 32) as char else c
  }

  /** `str.lower()` on ASCII text. */
  function Lower(s: string): (r: string)
    ensures |r| == |s|
    ensures forall i :: 0 <= i < |s| ==> r[i] == LowerChar(s[i])
  {
    seq(|s|, i requires 0 <= i < |s| => LowerChar(s[i]))
  }

  /** `s.split(',')[0]`: the text before the first comma. */
  function BeforeComma(s: string): (r: string)
    ensures ',' !in r
  {
    if s == [] then []
    else if s[0] == ',' then []
    else [s[0]] + BeforeComma(s[1..])
  }

  function StripLeft(s: string): string {
    if s != [] && IsSpace(s[0]) then StripLeft(s[1..]) else s
  }

  function StripRight(s: string): string {
    if s != [] && IsSpace(s[|s| - 1]) then StripRight(s[..|s| - 1]) else s
  }

  /** `str.strip()`. */
  function Strip(s: string): string {
    StripRight(StripLeft(s))
  }

  /** `s.replace(pat, rep)`: every non-overlapping occurrence, scanning left to right. */
  function Replace(s: string, pat: string, rep: string): string
    requires |pat| > 0
    decreases |s|
  {
    if |s| < |pat| then s
    else if s[..|pat|] == pat then rep + Replace(s[|pat|..], pat, rep)
    else [s[0]] + Replace(s[1..], pat, rep)
  }

  /** Drops the leading run of characters matched by `[\W_]`. */
  function DropNonWord(s: string): (r: string)
    ensures |r| <= |s|
    ensures s != [] && !IsAlnum(s[0]) ==> |r| < |s|
    ensures r == [] || IsAlnum(r[0])
  {
    if s != [] && !IsAlnum(s[0]) then DropNonWord(s[1..]) else s
  }

  /** `re.sub(r'[\W_]+', ' ', s)`: every maximal run of non-word characters becomes one space. */
  function Collapse(s: string): string
    decreases |s|
  {
    if s == [] then []
    else if IsAlnum(s[0]) then [s[0]] + Collapse(s[1..])
    else " " + Collapse(DropNonWord(s))
  }

  /** `normalize_address`. */
  function Normalize(address: string): string {
    var street := Strip(BeforeComma(address));
    var expanded := Replace(Replace(street, " ST", " STREET"), " AVE", " AVENUE");
    Lower(Strip(Collapse(expanded)))
  }

  predicate NormChar(c: char) {
    'a' <= c <= 'z' || '0' <= c <= '9' || c == ' '
  }

  /** Two spaces in a row at position `i`. */
  predicate SpacePair(t: string, i: nat)
    requires i + 1 < |t|
  {
    t[i] == ' ' && t[i + 1] == ' '
  }

  /** The shape of every normalised address. */
  predicate IsNormalized(t: string) {
    && (forall i :: 0 <= i < |t| ==> NormChar(t[i]))
    && (t != [] ==> t[0] != ' ' && t[|t| - 1] != ' ')
    && (forall i :: 0 <= i < |t| - 1 ==> !SpacePair(t, i))
  }

  // ---------------------------------------------------------------------
  // The shape of Normalize's output

  /** Text made of letters, digits and single spaces. */
  predicate SingleSpaced(t: string) {
    && (forall i :: 0 <= i < |t| ==> IsAlnum(t[i]) || t[i] == ' ')
    && (forall i :: 0 <= i < |t| - 1 ==> !SpacePair(t, i))
  }

  lemma {:induction false} CollapseShape(s: string)
    ensures SingleSpaced(Collapse(s))
    ensures Collapse(s) != [] && s != [] && IsAlnum(s[0]) ==> Collapse(s)[0] == s[0]
    ensures Collapse(s) == [] || IsAlnum(Collapse(s)[0]) || Collapse(s)[0] == ' '
    decreases |s|
  {
    if s == [] {
    } else if IsAlnum(s[0]) {
      CollapseShape(s[1..]);
      var r := Collapse(s[1..]);
      assert Collapse(s) == [s[0]] + r;
      forall i | 0 < i < |Collapse(s)| - 1 ensures !SpacePair(Collapse(s), i) {
        assert !SpacePair(r, i - 1);
      }
    } else {
      var d := DropNonWord(s);
      CollapseShape(d);
      var r := Collapse(d);
      assert Collapse(s) == " " + r;
      assert r != [] ==> IsAlnum(r[0]) by {
        if d != [] { assert IsAlnum(d[0]); } else { assert r == []; }
      }
      forall i | 0 < i < |Collapse(s)| - 1 ensures !SpacePair(Collapse(s), i) {
        assert !SpacePair(r, i - 1);
      }
    }
  }

  lemma {:induction false} StripLeftIsSuffix(s: string)
    ensures exists k :: 0 <= k <= |s| && StripLeft(s) == s[k..]
    ensures StripLeft(s) == [] || !IsSpace(StripLeft(s)[0])
    decreases |s|
  {
    if s != [] && IsSpace(s[0]) {
      StripLeftIsSuffix(s[1..]);
      var k :| 0 <= k <= |s[1..]| && StripLeft(s[1..]) == s[1..][k..];
      assert StripLeft(s) == s[k + 1..];
    } else {
      assert StripLeft(s) == s[0..];
    }
  }

  lemma {:induction false} StripRightIsPrefix(s: string)
    ensures exists k :: 0 <= k <= |s| && StripRight(s) == s[..k]
    ensures StripRight(s) == [] || !IsSpace(StripRight(s)[|StripRight(s)| - 1])
    decreases |s|
  {
    if s != [] && IsSpace(s[|s| - 1]) {
      StripRightIsPrefix(s[..|s| - 1]);
      var k :| 0 <= k <= |s| - 1 && StripRight(s[..|s| - 1]) == s[..|s| - 1][..k];
      assert StripRight(s) == s[..k];
    } else {
      assert StripRight(s) == s[..|s|];
    }
  }

  /** Every slice of single-spaced text is single-spaced. */
  lemma SingleSpacedSlice(t: string, a: nat, b: nat)
    requires SingleSpaced(t) && a <= b <= |t|
    ensures SingleSpaced(t[a..b])
  {
    var w := t[a..b];
    forall i | 0 <= i < |w| - 1 ensures !SpacePair(w, i) {
      assert w[i] == t[a + i] && w[i + 1] == t[a + i + 1];
      assert !SpacePair(t, a + i);
    }
  }

  /** Stripping single-spaced text keeps it single-spaced and removes its edge spaces. */
  lemma StripSingleSpaced(t: string)
    requires SingleSpaced(t)
    ensures SingleSpaced(Strip(t))
    ensures Strip(t) != [] ==> Strip(t)[0] != ' ' && Strip(t)[|Strip(t)| - 1] != ' '
  {
    StripLeftIsSuffix(t);
    var k :| 0 <= k <= |t| && StripLeft(t) == t[k..];
    var u := t[k..];
    SingleSpacedSlice(t, k, |t|);
    assert t[k..|t|] == u;
    StripRightIsPrefix(u);
    var j :| 0 <= j <= |u| && StripRight(u) == u[..j];
    SingleSpacedSlice(u, 0, j);
    assert u[0..j] == u[..j];
  }

  /** The output of normalize_address is lower-case letters, digits and single inner spaces. */
  lemma NormalizeShape(address: string)
    ensures IsNormalized(Normalize(address))
  {
    var expanded := Replace(Replace(Strip(BeforeComma(address)), " ST", " STREET"), " AVE", " AVENUE");
    CollapseShape(expanded);
    var t := Strip(Collapse(expanded));
    StripSingleSpaced(Collapse(expanded));
    var r := Lower(t);
    assert r == Normalize(address);
    forall i | 0 <= i < |r| ensures NormChar(r[i]) {
      assert IsAlnum(t[i]) || t[i] == ' ';
    }
    forall i | 0 <= i < |r| - 1 ensures !SpacePair(r, i) {
      assert !SpacePair(t, i);
    }
  }

  // ---------------------------------------------------------------------
  // Idempotence

  lemma {:induction false} BeforeCommaNoComma(s: string)
    requires ',' !in s
    ensures BeforeComma(s) == s
    decreases |s|
  {
    if s != [] {
      assert s[0] != ',';
      assert forall i :: 0 <= i < |s[1..]| ==> s[1..][i] == s[i + 1];
      BeforeCommaNoComma(s[1..]);
      assert BeforeComma(s) == [s[0]] + s[1..];
    }
  }

  lemma {:induction false} ReplaceAbsent(s: string, pat: string, rep: string)
    requires |pat| >= 2
    requires forall i :: 0 <= i < |s| ==> s[i] != pat[1]
    ensures Replace(s, pat, rep) == s
    decreases |s|
  {
    if |s| >= |pat| {
      assert s[..|pat|][1] == s[1];
      assert s[..|pat|] != pat;
      ReplaceAbsent(s[1..], pat, rep);
      assert Replace(s, pat, rep) == [s[0]] + s[1..];
    }
  }

  lemma {:induction false} CollapseSingleSpaced(t: string)
    requires SingleSpaced(t)
    ensures Collapse(t) == t
    decreases |t|
  {
    if t != [] {
      var rest := t[1..];
      assert SingleSpaced(rest) by {
        forall i | 0 <= i < |rest| - 1 ensures !SpacePair(rest, i) {
          assert rest[i] == t[i + 1] && rest[i + 1] == t[i + 2];
          assert !SpacePair(t, i + 1);
        }
      }
      CollapseSingleSpaced(rest);
      if IsAlnum(t[0]) {
        assert Collapse(t) == [t[0]] + rest;
      } else {
        assert t[0] == ' ';
        assert rest != [] ==> IsAlnum(rest[0]) by {
          if rest != [] { assert !SpacePair(t, 0); assert rest[0] == t[1]; }
        }
        assert DropNonWord(rest) == rest;
        assert DropNonWord(t) == rest;
        assert Collapse(t) == " " + rest;
      }
    }
  }

  /** Normalised text is a fixed point of every step of normalize_address. */
  lemma NormalizeFixedPoint(t: string)
    requires IsNormalized(t)
    ensures Normalize(t) == t
  {
    forall i | 0 <= i < |t| ensures t[i] != ',' { assert NormChar(t[i]); }
    BeforeCommaNoComma(t);
    assert Strip(t) == t;
    assert (" ST")[1] == 'S' && (" AVE")[1] == 'A';
    assert forall i :: 0 <= i < |t| ==> t[i] != 'S' && t[i] != 'A' by {
      forall i | 0 <= i < |t| ensures t[i] != 'S' && t[i] != 'A' { assert NormChar(t[i]); }
    }
    ReplaceAbsent(t, " ST", " STREET");
    ReplaceAbsent(t, " AVE", " AVENUE");
    assert SingleSpaced(t) by {
      forall i | 0 <= i < |t| ensures IsAlnum(t[i]) || t[i] == ' ' { assert NormChar(t[i]); }
    }
    CollapseSingleSpaced(t);
    assert Lower(t) == t by {
      forall i | 0 <= i < |t| ensures Lower(t)[i] == t[i] { assert NormChar(t[i]); }
    }
  }

  /** normalize_address is idempotent. */
  lemma NormalizeIdempotent(address: string)
    ensures Normalize(Normalize(address)) == Normalize(address)
  {
    NormalizeShape(address);
    NormalizeFixedPoint(Normalize(address));
  }

  lemma {:induction false} BeforeCommaOfJoin(s: string, t: string)
    requires ',' !in s
    ensures BeforeComma(s + "," + t) == s
    decreases |s|
  {
    if s == [] {
      assert (s + "," + t)[0] == ',';
    } else {
      assert forall i :: 0 <= i < |s[1..]| ==> s[1..][i] == s[i + 1];
      BeforeCommaOfJoin(s[1..], t);
      assert (s + "," + t)[1..] == s[1..] + "," + t;
      assert (s + "," + t)[0] == s[0] && s[0] != ',';
    }
  }

  /** Only the text before the first comma (the street) matters: city, state and zip are ignored. */
  lemma NormalizeIgnoresAfterComma(street: string, rest: string)
    requires ',' !in street
    ensures Normalize(street + "," + rest) == Normalize(street)
  {
    BeforeCommaOfJoin(street, rest);
    BeforeCommaNoComma(street);
  }

  // ---------------------------------------------------------------------
  // The address-to-index table

  /** A row of the address table: location index, location name, street address. */
  datatype AddressRow = AddressRow(index: nat, name: string, street: string)

  predicate RowHasKey(row: AddressRow, key: string) {
    Normalize(row.name) == key || Normalize(row.street) == key
  }

  /** The table the map-building loop of load_address_data leaves behind (last write wins). */
  function AddressIndexOf(rows: seq<AddressRow>): map<string, nat> {
    if rows == [] then map[]
    else
      var row := rows[|rows| - 1];
      AddressIndexOf(rows[..|rows| - 1])[Normalize(row.name) := row.index][Normalize(row.street) := row.index]
  }

  /** The map-building loop of load_address_data, over rows already read from the file. */
  method BuildAddressIndex(rows: seq<AddressRow>) returns (index: map<string, nat>)
    ensures index == AddressIndexOf(rows)
  {
    index := map[];
    var k := 0;
    while k < |rows|
      invariant 0 <= k <= |rows|
      invariant index == AddressIndexOf(rows[..k])
    {
      var row := rows[k];
      var name := Normalize(row.name);
      var street := Normalize(row.street);
      index := index[name := row.index];
      index := index[street := row.index];
      assert rows[..k + 1][..k] == rows[..k];
      k := k + 1;
    }
    assert rows[..k] == rows;
  }

  /** A key that some row names is in the table. */
  lemma {:induction false} AddressIndexHas(rows: seq<AddressRow>, i: nat, key: string)
    requires i < |rows| && RowHasKey(rows[i], key)
    ensures key in AddressIndexOf(rows)
    decreases |rows|
  {
    if i < |rows| - 1 {
      var init := rows[..|rows| - 1];
      assert init[i] == rows[i];
      AddressIndexHas(init, i, key);
    }
  }

  /** Every key in the table was named by some row. */
  lemma {:induction false} AddressIndexFrom(rows: seq<AddressRow>, key: string)
    requires key in AddressIndexOf(rows)
    ensures exists i :: 0 <= i < |rows| && RowHasKey(rows[i], key)
    decreases |rows|
  {
    var n := |rows| - 1;
    if !RowHasKey(rows[n], key) {
      var init := rows[..n];
      AddressIndexFrom(init, key);
      var i :| 0 <= i < |init| && RowHasKey(init[i], key);
      assert rows[i] == init[i];
    }
  }

  /** A key is in the table exactly when some row names it. */
  lemma AddressIndexKeys(rows: seq<AddressRow>, key: string)
    ensures key in AddressIndexOf(rows) <==> exists i :: 0 <= i < |rows| && RowHasKey(rows[i], key)
  {
    if key in AddressIndexOf(rows) {
      AddressIndexFrom(rows, key);
    }
    if exists i :: 0 <= i < |rows| && RowHasKey(rows[i], key) {
      var i :| 0 <= i < |rows| && RowHasKey(rows[i], key);
      AddressIndexHas(rows, i, key);
    }
  }

  /** A key maps to the index of the last row that names it. */
  lemma {:induction false} AddressIndexLastWins(rows: seq<AddressRow>, i: nat, key: string)
    requires i < |rows| && RowHasKey(rows[i], key)
    requires forall j :: i < j < |rows| ==> !RowHasKey(rows[j], key)
    ensures key in AddressIndexOf(rows) && AddressIndexOf(rows)[key] == rows[i].index
    decreases |rows|
  {
    var init := rows[..|rows| - 1];
    if i < |rows| - 1 {
      assert !RowHasKey(rows[|rows| - 1], key);
      forall j | i < j < |init| ensures !RowHasKey(init[j], key) {
        assert init[j] == rows[j];
      }
      AddressIndexLastWins(init, i, key);
    }
  }

  /** `get_address_index`: the index of the normalised address, or None when it is not in the table. */
  function GetAddressIndex(index: map<string, nat>, address: string): (r: Option<nat>)
    ensures r.Some? <==> Normalize(address) in index
    ensures r.Some? ==> r.value == index[Normalize(address)] && r.value in index.Values
  {
    var key := Normalize(address);
    if key in index then Some(index[key]) else None
  }

  /** Resolving an address that is already normalised gives the same answer. */
  lemma GetAddressIndexOfNormalized(index: map<string, nat>, address: string)
    ensures GetAddressIndex(index, Normalize(address)) == GetAddressIndex(index, address)
  {
    NormalizeIdempotent(address);
  }
}
