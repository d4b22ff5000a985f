/**
 * The record mapper: the realtime API's XML answer becomes a frame, one row
 * per record element, one column per entry of a field map.
 */
module Parse {
  import opened Wrappers
  import opened Frame

  /** The namespace every element of the API's answers lives in. */
  const Namespace := "http://api.irishrail.ie/realtime/"

  /**
   * An element as ElementTree holds it: its tag in `{namespace}local` form,
   * its text (None for an element with no text) and its children in
   * document order.
   */
  datatype Element = Element(tag: string, text: Option<string>, children: seq<Element>)

  /** The tag `ns:local` resolves to under the namespace map. */
  function Qualified(local: string): (q: string)
    ensures q == "{" + Namespace + "}" + local
  {
    "{" + Namespace + "}" + local
  }

  /** `element.find(tag)`: the first direct child with that tag. */
  function Find(children: seq<Element>, tag: string): (r: Option<Element>)
    ensures r.Some? ==> exists i :: (0 <= i < |children| && children[i] == r.value &&
      r.value.tag == tag && forall j :: 0 <= j < i ==> children[j].tag != tag)
    ensures r.None? ==> forall i :: 0 <= i < |children| ==> children[i].tag != tag
    decreases |children|
  {
    if children == [] then None
    else if children[0].tag == tag then Some(children[0])
    else
      var r := Find(children[1..], tag);
      assert r.Some? ==> exists i :: (1 <= i < |children| && children[i] == r.value &&
        r.value.tag == tag && forall j :: 0 <= j < i ==> children[j].tag != tag) by {
        if r.Some? {
          var i :| 0 <= i < |children[1..]| && children[1..][i] == r.value &&
            r.value.tag == tag && forall j :: 0 <= j < i ==> children[1..][j].tag != tag;
          assert forall j :: 1 <= j < i + 1 ==> children[j] == children[1..][j - 1];
        }
      }
      r
  }

  /** `element.text if element is not None else None` for the child mapped to a column. */
  function Field(record: Element, xmlTag: string): (r: Cell)
    ensures r.Some? ==> r.value.Text?
  {
    match Find(record.children, Qualified(xmlTag))
    case None => None
    case Some(e) => if e.text.Some? then Some(Text(e.text.value)) else None
  }

  /** The row built for one record: exactly the field map's columns. */
  function RecordOf(record: Element, fieldMap: map<string, string>): (r: Row)
    ensures r.Keys == fieldMap.Keys
    ensures forall c :: c in fieldMap ==> r[c] == Field(record, fieldMap[c])
  {
    map c | c in fieldMap :: Field(record, fieldMap[c])
  }

  /** `root.findall(tag)`: the direct children with that tag, in document order. */
  function FindAll(children: seq<Element>, tag: string): (r: seq<Element>)
    ensures |r| <= |children|
    ensures forall e :: e in r ==> e in children && e.tag == tag
    decreases |children|
  {
    if children == [] then []
    else (if children[0].tag == tag then [children[0]] else []) + FindAll(children[1..], tag)
  }

  /**
   * `pd.DataFrame(records)`: the columns are the keys of the records, so a
   * list of no records gives a frame with no columns at all.
   */
  function Records(root: Element, recordTag: string, fieldMap: map<string, string>): (t: Table)
    ensures WellFormed(t)
  {
    var found := FindAll(root.children, Qualified(recordTag));
    Table(if found == [] then {} else fieldMap.Keys, RowsOf(found, fieldMap))
  }

  /** The rows of the found records, in order. */
  function RowsOf(found: seq<Element>, fieldMap: map<string, string>): (rows: seq<Row>)
    ensures |rows| == |found|
    ensures forall i :: 0 <= i < |found| ==> rows[i] == RecordOf(found[i], fieldMap)
  {
    seq(|found|, i requires 0 <= i < |found| => RecordOf(found[i], fieldMap))
  }

  /** The row for one record, built column by column as the inner loop does. */
  method BuildRow(record: Element, fieldMap: map<string, string>) returns (row: Row)
    ensures row == RecordOf(record, fieldMap)
  {
    row := map[];
    var todo := fieldMap.Keys;
    while todo != {}
      invariant todo <= fieldMap.Keys
      invariant row.Keys == fieldMap.Keys - todo
      invariant forall c :: c in row ==> row[c] == Field(record, fieldMap[c])
      decreases todo
    {
      var c :| c in todo;
      row := row[c := Field(record, fieldMap[c])];
      todo := todo - {c};
    }
  }

  /** `parse_xml_to_df`: one row per record element, proved against Records. */
  method ParseXmlToFrame(root: Element, recordTag: string, fieldMap: map<string, string>) returns (t: Table)
    ensures t == Records(root, recordTag, fieldMap)
  {
    var tag := Qualified(recordTag);
    var records: seq<Row> := [];
    var i := 0;
    while i < |root.children|
      invariant 0 <= i <= |root.children|
      invariant records == RowsOf(FindAll(root.children[..i], tag), fieldMap)
    {
      var record := root.children[i];
      ghost var before := FindAll(root.children[..i], tag);
      FindAllSplit(root.children[..i], [record], tag);
      assert root.children[..i + 1] == root.children[..i] + [record];
      if record.tag == tag {
        var row := BuildRow(record, fieldMap);
        assert FindAll([record], tag) == [record];
        RowsOfAppend(before, record, fieldMap);
        records := records + [row];
      } else {
        assert FindAll([record], tag) == [];
        assert before + [] == before;
        assert FindAll(root.children[..i + 1], tag) == before;
      }
      i := i + 1;
    }
    assert root.children[..i] == root.children;
    return Table(if records == [] then {} else fieldMap.Keys, records);
  }

  lemma RowsOfAppend(found: seq<Element>, e: Element, fieldMap: map<string, string>)
    ensures RowsOf(found + [e], fieldMap) == RowsOf(found, fieldMap) + [RecordOf(e, fieldMap)]
  {
  }

  /** findall distributes over concatenation: document order is kept. */
  lemma {:induction false} FindAllSplit(a: seq<Element>, b: seq<Element>, tag: string)
    ensures FindAll(a + b, tag) == FindAll(a, tag) + FindAll(b, tag)
    decreases |a|
  {
    if a == [] {
      assert a + b == b;
    } else {
      FindAllSplit(a[1..], b, tag);
      assert (a + b)[1..] == a[1..] + b;
    }
  }

  /** Every child with the record tag yields a record, including identical ones. */
  lemma FindAllKeepsMatches(children: seq<Element>, tag: string)
    ensures forall e :: e in children && e.tag == tag ==> e in FindAll(children, tag)
    ensures (forall i :: 0 <= i < |children| ==> children[i].tag == tag) ==> FindAll(children, tag) == children
  {
    FindAllHasMatches(children, tag);
    if forall i :: 0 <= i < |children| ==> children[i].tag == tag {
      FindAllOfMatching(children, tag);
    }
  }

  lemma {:induction false} FindAllHasMatches(children: seq<Element>, tag: string)
    ensures forall e :: e in children && e.tag == tag ==> e in FindAll(children, tag)
    decreases |children|
  {
    if children != [] {
      var rest := children[1..];
      FindAllHasMatches(rest, tag);
      var head := if children[0].tag == tag then [children[0]] else [];
      assert FindAll(children, tag) == head + FindAll(rest, tag);
      forall e | e in children && e.tag == tag ensures e in FindAll(children, tag) {
        if e != children[0] {
          assert e in rest;
        }
      }
    }
  }

  lemma {:induction false} FindAllOfMatching(children: seq<Element>, tag: string)
    requires forall i :: 0 <= i < |children| ==> children[i].tag == tag
    ensures FindAll(children, tag) == children
    decreases |children|
  {
    if children != [] {
      var rest := children[1..];
      assert forall i :: 0 <= i < |rest| ==> rest[i].tag == children[i + 1].tag;
      FindAllOfMatching(rest, tag);
      assert children == [children[0]] + rest;
    }
  }

  /** Children with any other tag, in particular in another namespace, are ignored. */
  lemma {:induction false} FindAllIgnoresOthers(children: seq<Element>, other: Element, tag: string)
    requires other.tag != tag
    ensures FindAll(children + [other], tag) == FindAll(children, tag)
    ensures FindAll([other] + children, tag) == FindAll(children, tag)
  {
    FindAllSplit(children, [other], tag);
    FindAllSplit([other], children, tag);
    assert FindAll([other], tag) == [] + FindAll([], tag);
  }

  /**
   * The frame holds one record per matching child, in order, each with
   * exactly the field map's keys; a field is the text of the first child
   * with the mapped tag, or missing.
   */
  lemma RecordsShape(root: Element, recordTag: string, fieldMap: map<string, string>, i: nat, c: string)
    requires i < |FindAll(root.children, Qualified(recordTag))|
    requires c in fieldMap
    ensures var t := Records(root, recordTag, fieldMap);
      var e := FindAll(root.children, Qualified(recordTag))[i];
      && |t.rows| == |FindAll(root.children, Qualified(recordTag))|
      && t.columns == fieldMap.Keys
      && t.rows[i].Keys == fieldMap.Keys
      && (Find(e.children, Qualified(fieldMap[c])).None? ==> t.rows[i][c].None?)
      && (Find(e.children, Qualified(fieldMap[c])).Some? ==>
            t.rows[i][c] == (if Find(e.children, Qualified(fieldMap[c])).value.text.Some?
                             then Some(Text(Find(e.children, Qualified(fieldMap[c])).value.text.value)) else None))
  {
  }

  /** A record none of whose children is mapped gives a row of missing values; nothing is raised. */
  lemma PartialRecordIsAllMissing(record: Element, fieldMap: map<string, string>)
    requires forall i, c :: 0 <= i < |record.children| && c in fieldMap ==> record.children[i].tag != Qualified(fieldMap[c])
    ensures forall c :: c in RecordOf(record, fieldMap) ==> RecordOf(record, fieldMap)[c].None?
  {
  }

  /** An answer with no matching record gives a frame with neither rows nor columns. */
  lemma NoRecordsNoColumns(root: Element, recordTag: string, fieldMap: map<string, string>)
    requires forall i :: 0 <= i < |root.children| ==> root.children[i].tag != Qualified(recordTag)
    ensures Records(root, recordTag, fieldMap) == Table({}, [])
  {
    FindAllNone(root.children, Qualified(recordTag));
  }

  lemma {:induction false} FindAllNone(children: seq<Element>, tag: string)
    requires forall i :: 0 <= i < |children| ==> children[i].tag != tag
    ensures FindAll(children, tag) == []
    decreases |children|
  {
    if children != [] {
      FindAllNone(children[1..], tag);
    }
  }
}
