/** The fields of a register of the Python package, and the register's view as a dictionary of them. */
module RegisterFields {
  import opened Wrappers
  import opened BitSets

  type Name = string

  datatype Field = Field(lsb: nat, msb: nat) {
    ghost predicate Valid() { lsb <= msb }

    function Mask(): Bits { Interval(lsb, msb + 1) }

    /** RegisterField.get_field */
    function Get(value: Bits): Bits { Shr(value * Mask(), lsb) }

    /** _fit_fieldvalue: what of a value fits into the field. */
    function Fit(value: Bits): Bits { value * Shr(Mask(), lsb) }

    /** A fitted value at the field's position. */
    function Place(value: Bits): Bits { Shl(Fit(value), lsb) }
  }

  type Fields = map<Name, Field>
  type Dict = map<Name, Bits>

  /** get_dict of an integer */
  function GetDict(fields: Fields, value: Bits): Dict {
    map n | n in fields :: fields[n].Get(value)
  }

  /** The value holds exactly the placed fields of the dictionary. */
  ghost predicate IsComposed(fields: Fields, dict: Dict, value: Bits)
    requires dict.Keys <= fields.Keys
  {
    HoldsPlaced(fields, dict, dict.Keys, value)
  }

  ghost predicate HoldsPlaced(fields: Fields, dict: Dict, names: set<Name>, value: Bits)
    requires names <= dict.Keys && names <= fields.Keys
  {
    forall k {:trigger InSomeField(fields, dict, names, k)} :: k in value <==> InSomeField(fields, dict, names, k)
  }

  ghost predicate InSomeField(fields: Fields, dict: Dict, names: set<Name>, k: nat)
    requires names <= dict.Keys && names <= fields.Keys
  {
    exists n :: n in names && k in fields[n].Place(dict[n])
  }

  lemma PlaceOneMore(fields: Fields, dict: Dict, names: set<Name>, value: Bits, n: Name)
    requires names <= dict.Keys && names <= fields.Keys && n in dict && n in fields
    requires HoldsPlaced(fields, dict, names, value)
    ensures HoldsPlaced(fields, dict, names + {n}, value + fields[n].Place(dict[n]))
  {
    var more := value + fields[n].Place(dict[n]);
    forall k: nat ensures k in more <==> InSomeField(fields, dict, names + {n}, k) {
      assert k in value <==> InSomeField(fields, dict, names, k);
    }
  }

  /** get_value of a dictionary; an unknown field name is a KeyError. */
  method GetValue(fields: Fields, dict: Dict) returns (r: Option<Bits>)
    ensures r.Some? <==> dict.Keys <= fields.Keys
    ensures r.Some? ==> IsComposed(fields, dict, r.value)
  {
    var value: Bits := {};
    var todo := dict.Keys;
    while todo != {}
      invariant todo <= dict.Keys && dict.Keys - todo <= fields.Keys
      invariant HoldsPlaced(fields, dict, dict.Keys - todo, value)
    {
      var fieldname :| fieldname in todo;
      if fieldname !in fields { return None; }
      PlaceOneMore(fields, dict, dict.Keys - todo, value, fieldname);
      assert dict.Keys - todo + {fieldname} == dict.Keys - (todo - {fieldname});
      value := value + fields[fieldname].Place(dict[fieldname]);
      todo := todo - {fieldname};
    }
    assert dict.Keys - todo == dict.Keys;
    return Some(value);
  }

  ghost predicate Apart(f: Field, g: Field) { f.Mask() !! g.Mask() }

  ghost predicate DisjointFields(fields: Fields) {
    forall m, n :: m in fields && n in fields && m != n ==> Apart(fields[m], fields[n])
  }

  predicate InField(f: Field, k: nat) { f.lsb <= k <= f.msb }

  lemma PlacedBit(f: Field, value: Bits, k: nat)
    ensures k in f.Place(value) <==> InField(f, k) && k - f.lsb in value
  {
  }

  lemma GotBit(f: Field, value: Bits, j: nat)
    ensures j in f.Get(value) <==> InField(f, j + f.lsb) && j + f.lsb in value
    ensures j in f.Fit(value) <==> InField(f, j + f.lsb) && j in value
  {
  }

  lemma ApartBit(f: Field, g: Field, k: nat)
    requires Apart(f, g)
    ensures !(InField(f, k) && InField(g, k))
  {
    assert InField(f, k) <==> k in f.Mask();
    assert InField(g, k) <==> k in g.Mask();
  }

  lemma BitOfPlaced(fields: Fields, dict: Dict, names: set<Name>, value: Bits, n: Name, k: nat)
    requires names <= dict.Keys && names <= fields.Keys && HoldsPlaced(fields, dict, names, value)
      && DisjointFields(fields)
    requires n in fields && InField(fields[n], k)
    ensures k in value <==> n in names && k - fields[n].lsb in dict[n]
  {
    if n in names { PlacedBit(fields[n], dict[n], k); }
    if InSomeField(fields, dict, names, k) {
      var m :| m in names && k in fields[m].Place(dict[m]);
      PlacedBit(fields[m], dict[m], k);
      if m != n { ApartBit(fields[m], fields[n], k); }
    }
  }

  /** A placed field reads back as its value cut to the field's width; a field that was not placed reads 0. */
  lemma FieldOfPlaced(fields: Fields, dict: Dict, names: set<Name>, value: Bits, n: Name)
    requires names <= dict.Keys && names <= fields.Keys && HoldsPlaced(fields, dict, names, value)
      && DisjointFields(fields)
    requires n in fields
    ensures fields[n].Get(value) == if n in names then fields[n].Fit(dict[n]) else {}
  {
    var f := fields[n];
    forall j: nat ensures j in f.Get(value) <==> n in names && j in f.Fit(dict[n]) {
      GotBit(f, value, j);
      if n in names { GotBit(f, dict[n], j); }
      if InField(f, j + f.lsb) { BitOfPlaced(fields, dict, names, value, n, j + f.lsb); }
    }
  }

  /** Composing a dictionary and taking it apart again gives every field its value cut to the field's
      width, and 0 for fields that were not given. */
  lemma DictRoundTrip(fields: Fields, dict: Dict, value: Bits)
    requires dict.Keys <= fields.Keys && IsComposed(fields, dict, value) && DisjointFields(fields)
    ensures forall n :: n in fields ==> GetDict(fields, value)[n] == if n in dict then fields[n].Fit(dict[n]) else {}
  {
    forall n | n in fields ensures fields[n].Get(value) == if n in dict then fields[n].Fit(dict[n]) else {} {
      FieldOfPlaced(fields, dict, dict.Keys, value, n);
    }
  }

  /** Taking a value apart and composing it again keeps the bits of the fields, overlapping or not. */
  lemma ValueRoundTrip(fields: Fields, value: Bits, again: Bits)
    requires IsComposed(fields, GetDict(fields, value), again)
    ensures forall k :: k in again <==> k in value && exists n :: n in fields && InField(fields[n], k)
  {
    forall k: nat ensures k in again <==> k in value && exists n :: n in fields && InField(fields[n], k) {
      forall n | n in fields
        ensures k in fields[n].Place(fields[n].Get(value)) <==> k in value && InField(fields[n], k)
      {
        PlacedBit(fields[n], fields[n].Get(value), k);
        if InField(fields[n], k) { GotBit(fields[n], value, k - fields[n].lsb); }
      }
      assert k in again <==> InSomeField(fields, GetDict(fields, value), GetDict(fields, value).Keys, k);
    }
  }

  /** With two overlapping fields some dictionary does not come back. */
  lemma OverlapBreaksRoundTrip(fields: Fields, m: Name, n: Name, k: nat, value: Bits)
    requires m in fields && n in fields && m != n && InField(fields[m], k) && InField(fields[n], k)
    requires IsComposed(fields, map[m := {}, n := {k - fields[n].lsb}], value)
    ensures fields[m].Get(value) != fields[m].Fit({})
  {
    var dict: Dict := map[m := {}, n := {k - fields[n].lsb}];
    PlacedBit(fields[n], dict[n], k);
    assert InSomeField(fields, dict, dict.Keys, k);
    GotBit(fields[m], value, k - fields[m].lsb);
    GotBit(fields[m], {}, k - fields[m].lsb);
  }

  function Writable(fields: Fields, dict: Dict, writeMask: Bits): set<Name> {
    set n | n in dict && n in fields && fields[n].Mask() <= writeMask
  }

  /** The value a dictionary is written as: its writable fields; other names are ignored. */
  method WriteValue(fields: Fields, dict: Dict, writeMask: Bits) returns (value: Bits)
    ensures HoldsPlaced(fields, dict, Writable(fields, dict, writeMask), value)
  {
    value := {};
    var todo := dict.Keys;
    ghost var done: set<Name> := {};
    while todo != {}
      invariant todo <= dict.Keys && done == Writable(fields, dict, writeMask) - todo
      invariant HoldsPlaced(fields, dict, done, value)
    {
      var fieldname :| fieldname in todo;
      if fieldname in fields && fields[fieldname].Mask() <= writeMask {
        PlaceOneMore(fields, dict, done, value, fieldname);
        value := value + fields[fieldname].Place(dict[fieldname]);
        done := done + {fieldname};
      }
      todo := todo - {fieldname};
    }
    assert done == Writable(fields, dict, writeMask);
  }
}
