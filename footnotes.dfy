/** The footnote table of the parse context: a plain object keyed by footnote id,
    filled by footnote definitions and read by references and by the footnote section.
    It is kept here as the sequence of its entries in the order the object enumerates
    them, which is the order the ids were first defined. */
module Footnotes {
  import opened Results

  datatype Footnote = Footnote(id: string, text: string)

  /** Assigning a string to this key of a plain object changes its prototype slot, which
      ignores anything but an object, so no entry is ever created for it. */
  const ProtoKey: string := "__proto__"

  function Ids(fs: seq<Footnote>): set<string> {
    set i | 0 <= i < |fs| :: fs[i].id
  }

  predicate UniqueIds(fs: seq<Footnote>) {
    forall i, j :: 0 <= i < j < |fs| ==> fs[i].id != fs[j].id
  }

  /** Position of the entry for `id`, or `|fs|` when there is none. */
  function IndexOf(fs: seq<Footnote>, id: string): (k: nat)
    ensures k <= |fs|
    ensures k < |fs| ==> fs[k].id == id
    ensures forall i :: 0 <= i < k ==> fs[i].id != id
  {
    if fs == [] then 0
    else if fs[0].id == id then 0
    else 1 + IndexOf(fs[1..], id)
  }

  /** The text stored for `id`. */
  function Lookup(fs: seq<Footnote>, id: string): Option<string> {
    var k := IndexOf(fs, id);
    if k < |fs| then Some(fs[k].text) else None
  }

  /** `footnotes[id] = text`: a new id is appended, a known one keeps its place and gets
      the new text. */
  function Define(fs: seq<Footnote>, id: string, text: string): (r: seq<Footnote>)
    ensures |r| == |fs| || r == fs + [Footnote(id, text)]
    ensures forall i :: 0 <= i < |fs| ==> r[i].id == fs[i].id
  {
    if id == ProtoKey then fs
    else
      var k := IndexOf(fs, id);
      if k < |fs| then fs[k := Footnote(id, text)] else fs + [Footnote(id, text)]
  }

  // ----- properties of the table -----

  lemma IdsMember(fs: seq<Footnote>, id: string)
    ensures id in Ids(fs) <==> IndexOf(fs, id) < |fs|
  {
    var k := IndexOf(fs, id);
    if id in Ids(fs) {
      var i :| 0 <= i < |fs| && fs[i].id == id;
      assert k <= i;
    }
  }

  /** A definition stores its text under its id, unless the id is the prototype key. */
  lemma DefineThenLookup(fs: seq<Footnote>, id: string, text: string)
    ensures Lookup(Define(fs, id, text), id) == if id == ProtoKey then Lookup(fs, id) else Some(text)
  {
    if id != ProtoKey {
      var k := IndexOf(fs, id);
      var r := Define(fs, id, text);
      if k == |fs| {
        IndexOfAppended(fs, id, text);
      } else {
        IndexOfUpdated(fs, k, id, text, id);
      }
    }
  }

  lemma {:induction false} IndexOfAppended(fs: seq<Footnote>, id: string, text: string)
    requires IndexOf(fs, id) == |fs|
    ensures IndexOf(fs + [Footnote(id, text)], id) == |fs|
  {
    if fs != [] {
      assert (fs + [Footnote(id, text)])[1..] == fs[1..] + [Footnote(id, text)];
      IndexOfAppended(fs[1..], id, text);
    }
  }

  lemma {:induction false} IndexOfUpdated(fs: seq<Footnote>, k: nat, id: string, text: string, other: string)
    requires k < |fs| && fs[k].id == id
    ensures IndexOf(fs[k := Footnote(id, text)], other) == IndexOf(fs, other)
  {
    if fs != [] && k > 0 {
      assert fs[k := Footnote(id, text)][1..] == fs[1..][k - 1 := Footnote(id, text)];
      IndexOfUpdated(fs[1..], k - 1, id, text, other);
    }
  }

  lemma {:induction false} IndexOfAppendedOther(fs: seq<Footnote>, id: string, text: string, other: string)
    requires other != id
    ensures IndexOf(fs + [Footnote(id, text)], other) == IndexOf(fs, other)
       || (IndexOf(fs, other) == |fs| && IndexOf(fs + [Footnote(id, text)], other) == |fs| + 1)
  {
    if fs != [] {
      assert (fs + [Footnote(id, text)])[1..] == fs[1..] + [Footnote(id, text)];
      IndexOfAppendedOther(fs[1..], id, text, other);
    }
  }

  /** A definition leaves every other id's text alone. */
  lemma DefineKeepsOthers(fs: seq<Footnote>, id: string, text: string, other: string)
    requires other != id
    ensures Lookup(Define(fs, id, text), other) == Lookup(fs, other)
  {
    if id != ProtoKey {
      var k := IndexOf(fs, id);
      if k == |fs| {
        IndexOfAppendedOther(fs, id, text, other);
      } else {
        IndexOfUpdated(fs, k, id, text, other);
        var j := IndexOf(fs, other);
        if j < |fs| {
          assert j != k;
        }
      }
    }
  }

  /** The ids after a definition: the definition's id joins them, except the prototype key. */
  lemma DefineIds(fs: seq<Footnote>, id: string, text: string)
    ensures Ids(Define(fs, id, text)) == if id == ProtoKey then Ids(fs) else Ids(fs) + {id}
  {
    var r := Define(fs, id, text);
    if id != ProtoKey {
      var k := IndexOf(fs, id);
      if k < |fs| {
        assert fs[k].id == id;
        forall x | x in Ids(r) ensures x in Ids(fs) {
          var i :| 0 <= i < |r| && r[i].id == x;
          assert fs[i].id == x;
        }
        forall x | x in Ids(fs) ensures x in Ids(r) {
          var i :| 0 <= i < |fs| && fs[i].id == x;
          assert r[i].id == x;
        }
      } else {
        assert r[|fs|].id == id;
        forall x | x in Ids(r) ensures x in Ids(fs) + {id} {
          var i :| 0 <= i < |r| && r[i].id == x;
          if i < |fs| { assert fs[i].id == x; }
        }
        forall x | x in Ids(fs) ensures x in Ids(r) {
          var i :| 0 <= i < |fs| && fs[i].id == x;
          assert r[i].id == x;
        }
      }
    }
  }

  /** Each id has one entry, however often it is defined. */
  lemma DefineKeepsIdsUnique(fs: seq<Footnote>, id: string, text: string)
    requires UniqueIds(fs)
    ensures UniqueIds(Define(fs, id, text))
  {
    var r := Define(fs, id, text);
    if id != ProtoKey && IndexOf(fs, id) == |fs| {
      forall i, j | 0 <= i < j < |r| ensures r[i].id != r[j].id {
        if j == |fs| {
          assert r[i].id == fs[i].id;
        }
      }
    }
  }

  /** The prototype key never becomes an id. */
  lemma ProtoKeyNeverStored(fs: seq<Footnote>, id: string, text: string)
    requires ProtoKey !in Ids(fs)
    ensures ProtoKey !in Ids(Define(fs, id, text))
  {
    DefineIds(fs, id, text);
  }
}
