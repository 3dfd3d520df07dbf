/** Document records (`RFC` objects in rfc_browser/load_xml.py): an identifier,
    a status string and four relation lists, filtered at construction time. */
module Records {
  import opened Ascii
  import opened Graphs

  /** The four relations a record lists. */
  datatype Relation = Updates | UpdatedBy | Obsoletes | ObsoletedBy

  datatype Record = Record(
    id: Id,
    currentStatus: string,
    updates: seq<Id>,
    updatedBy: seq<Id>,
    obsoletes: seq<Id>,
    obsoletedBy: seq<Id>)
  {
    /** The list for one relation kind. */
    function Related(kind: Relation): seq<Id> {
      match kind
      case Updates => updates
      case UpdatedBy => updatedBy
      case Obsoletes => obsoletes
      case ObsoletedBy => obsoletedBy
    }
  }

  /** A relation target names a document when it starts with "RFC"; the registry
      also lists other series (for instance "FYI" or "STD" numbers). */
  predicate IsRfcName(s: string) {
    StartsWith(s, "RFC")
  }

  /** The comprehension that keeps, in order, the targets naming documents. */
  function FilterRfc(targets: seq<string>): (r: seq<string>)
    ensures |r| <= |targets|
    ensures forall x | x in r :: IsRfcName(x) && x in targets
  {
    if targets == [] then []
    else if IsRfcName(targets[0]) then [targets[0]] + FilterRfc(targets[1..])
    else FilterRfc(targets[1..])
  }

  /** `RFC.__init__` once the XML fields are read: each relation list keeps exactly its
      RFC-named targets, each as often as it occurs, and (FilterRfcAppend) in input order;
      the status is kept as the registry spells it. */
  function NewRecord(
    id: Id, currentStatus: string,
    updates: seq<string>, updatedBy: seq<string>,
    obsoletes: seq<string>, obsoletedBy: seq<string>): (r: Record)
    ensures r.id == id && r.currentStatus == currentStatus
    ensures forall kind: Relation, x | x in r.Related(kind) :: IsRfcName(x)
    ensures forall x :: multiset(r.updates)[x] == if IsRfcName(x) then multiset(updates)[x] else 0
    ensures forall x :: multiset(r.updatedBy)[x] == if IsRfcName(x) then multiset(updatedBy)[x] else 0
    ensures forall x :: multiset(r.obsoletes)[x] == if IsRfcName(x) then multiset(obsoletes)[x] else 0
    ensures forall x :: multiset(r.obsoletedBy)[x] == if IsRfcName(x) then multiset(obsoletedBy)[x] else 0
  {
    forall x ensures
      && multiset(FilterRfc(updates))[x] == (if IsRfcName(x) then multiset(updates)[x] else 0)
      && multiset(FilterRfc(updatedBy))[x] == (if IsRfcName(x) then multiset(updatedBy)[x] else 0)
      && multiset(FilterRfc(obsoletes))[x] == (if IsRfcName(x) then multiset(obsoletes)[x] else 0)
      && multiset(FilterRfc(obsoletedBy))[x] == (if IsRfcName(x) then multiset(obsoletedBy)[x] else 0)
    {
      FilterRfcCounts(updates, x);
      FilterRfcCounts(updatedBy, x);
      FilterRfcCounts(obsoletes, x);
      FilterRfcCounts(obsoletedBy, x);
    }
    Record(id, currentStatus,
           FilterRfc(updates), FilterRfc(updatedBy),
           FilterRfc(obsoletes), FilterRfc(obsoletedBy))
  }

  /** Filtering distributes over concatenation: kept targets stay in their order. */
  lemma {:induction false} FilterRfcAppend(a: seq<string>, b: seq<string>)
    ensures FilterRfc(a + b) == FilterRfc(a) + FilterRfc(b)
    decreases |a|
  {
    if a == [] {
      assert a + b == b;
    } else {
      assert (a + b)[0] == a[0] && (a + b)[1..] == a[1..] + b;
      FilterRfcAppend(a[1..], b);
    }
  }

  /** Every target naming a document is kept as often as it occurs; every other is dropped. */
  lemma {:induction false} FilterRfcCounts(targets: seq<string>, x: string)
    ensures multiset(FilterRfc(targets))[x] == if IsRfcName(x) then multiset(targets)[x] else 0
    decreases |targets|
  {
    if targets != [] {
      FilterRfcCounts(targets[1..], x);
      assert targets == [targets[0]] + targets[1..];
    }
  }

  /** Filtering an already filtered list changes nothing. */
  lemma {:induction false} FilterRfcIdempotent(targets: seq<string>)
    ensures FilterRfc(FilterRfc(targets)) == FilterRfc(targets)
    decreases |targets|
  {
    if targets != [] {
      FilterRfcIdempotent(targets[1..]);
    }
  }
}
