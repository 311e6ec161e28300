/**
 * The message inbox: the locally cached list that mirrors the "messages"
 * collection, merged from live snapshots and pruned after confirmed
 * deletions, and the epoch seconds each message card shows.
 */
module MessagesScreen {
  import opened KotlinText

  /** The triple (createdAt, sender, content) the list de-duplicates on. */
  datatype Key = Key(createdAt: string, sender: string, content: string)

  /** One entry of the list: the store's document id and its triple. */
  datatype Message = Message(id: string, key: Key)

  /**
   * A document of a snapshot: its id and, for each field present, the text
   * `toString()` gives for the field's value.
   */
  datatype Document = Document(id: string, fields: map<string, string>)

  /** One call of the snapshot listener: the snapshot (if any) and whether an error came with it. */
  datatype Notification = Notification(snapshot: Option<seq<Document>>, error: bool)

  /** How the store answered a delete request. */
  datatype DeleteOutcome = DeleteSucceeded | DeleteFailed

  /** `document[name].toString()`: a missing field reads as "null". */
  function FieldText(d: Document, name: string): (r: string)
    ensures name in d.fields ==> r == d.fields[name]
    ensures name !in d.fields ==> r == "null"
  {
    if name in d.fields then d.fields[name] else "null"
  }

  /** The entry the loop builds for a document: its id and the texts of its three fields. */
  function ToMessage(d: Document): (r: Message)
    ensures r.id == d.id
    ensures r.key.createdAt == FieldText(d, "createdAt")
    ensures r.key.sender == FieldText(d, "sender")
    ensures r.key.content == FieldText(d, "content")
  {
    Message(d.id, Key(FieldText(d, "createdAt"), FieldText(d, "sender"), FieldText(d, "content")))
  }

  function AsMessages(docs: seq<Document>): (r: seq<Message>)
    ensures |r| == |docs|
    ensures forall i :: 0 <= i < |docs| ==> r[i] == ToMessage(docs[i])
    decreases |docs|
  {
    if |docs| == 0 then [] else [ToMessage(docs[0])] + AsMessages(docs[1..])
  }

  /** The membership scan `msgs.any { it.second == triple }`. */
  predicate HasKey(l: seq<Message>, k: Key): (b: bool)
    ensures b <==> k in KeySet(l)
  {
    exists i :: 0 <= i < |l| && l[i].key == k
  }

  function KeySet(l: seq<Message>): set<Key>
  {
    set m | m in l :: m.key
  }

  ghost predicate DistinctKeys(l: seq<Message>)
  {
    forall i, j :: 0 <= i < j < |l| ==> l[i].key != l[j].key
  }

  /** `a` is `b` with some elements left out, the rest in the same order. */
  ghost predicate IsSubsequence<T>(a: seq<T>, b: seq<T>)
    decreases |b|
  {
    |a| == 0 || (|b| > 0 && ((a[0] == b[0] && IsSubsequence(a[1..], b[1..])) || IsSubsequence(a, b[1..])))
  }

  // ---------------------------------------------------------------------------
  // Merging a snapshot

  /** One turn of the snapshot loop: append the document unless its triple is already listed. */
  function Step(l: seq<Message>, d: Document): (r: seq<Message>)
    ensures |l| <= |r| <= |l| + 1 && r[..|l|] == l
    ensures HasKey(r, ToMessage(d).key)
    ensures |r| == |l| + 1 <==> !HasKey(l, ToMessage(d).key)
    ensures |r| == |l| + 1 ==> r[|l|] == ToMessage(d)
  {
    var m := ToMessage(d);
    if HasKey(l, m.key) then l else l + [m]
  }

  /** The list after the snapshot loop has run over `docs`, in order. */
  function Merged(l: seq<Message>, docs: seq<Document>): (r: seq<Message>)
    ensures |l| <= |r| <= |l| + |docs| && r[..|l|] == l
    decreases |docs|
  {
    if |docs| == 0 then l else Merged(Step(l, docs[0]), docs[1..])
  }

  /**
   * Reference definition: the messages of `docs` whose triple is neither in
   * `seen` nor carried by an earlier document, in snapshot order.
   */
  function Fresh(seen: set<Key>, docs: seq<Document>): seq<Message>
    decreases |docs|
  {
    if |docs| == 0 then []
    else
      var m := ToMessage(docs[0]);
      if m.key in seen then Fresh(seen, docs[1..]) else [m] + Fresh(seen + {m.key}, docs[1..])
  }

  lemma KeySetSingleton(m: Message)
    ensures KeySet([m]) == {m.key}
  {
    assert forall x :: x in [m] <==> x == m;
  }

  lemma AsMessagesUnfold(docs: seq<Document>)
    requires |docs| > 0
    ensures AsMessages(docs) == [ToMessage(docs[0])] + AsMessages(docs[1..])
    ensures KeySet(AsMessages(docs)) == {ToMessage(docs[0]).key} + KeySet(AsMessages(docs[1..]))
  {
    KeySetConcat([ToMessage(docs[0])], AsMessages(docs[1..]));
    KeySetSingleton(ToMessage(docs[0]));
  }

  /** The selection holds no triple already seen, and no triple twice. */
  lemma {:induction false} FreshAvoidsSeen(seen: set<Key>, docs: seq<Document>)
    ensures forall i :: 0 <= i < |Fresh(seen, docs)| ==> Fresh(seen, docs)[i].key !in seen
    ensures DistinctKeys(Fresh(seen, docs))
    decreases |docs|
  {
    if |docs| > 0 {
      var m, rest := ToMessage(docs[0]), docs[1..];
      if m.key in seen {
        FreshAvoidsSeen(seen, rest);
      } else {
        var tail := Fresh(seen + {m.key}, rest);
        FreshAvoidsSeen(seen + {m.key}, rest);
        assert Fresh(seen, docs) == [m] + tail;
        forall i | 0 <= i < |[m] + tail| ensures ([m] + tail)[i].key !in seen {
          if i > 0 {
            assert ([m] + tail)[i] == tail[i - 1];
          }
        }
        forall i, j | 0 <= i < j < |[m] + tail| ensures ([m] + tail)[i].key != ([m] + tail)[j].key {
          assert ([m] + tail)[j] == tail[j - 1];
          if i > 0 {
            assert ([m] + tail)[i] == tail[i - 1];
          }
        }
      }
    }
  }

  /** The selection holds every new triple of the snapshot and nothing else. */
  lemma {:induction false} FreshCoversNewTriples(seen: set<Key>, docs: seq<Document>)
    ensures KeySet(Fresh(seen, docs)) == KeySet(AsMessages(docs)) - seen
    decreases |docs|
  {
    if |docs| > 0 {
      var m, rest := ToMessage(docs[0]), docs[1..];
      AsMessagesUnfold(docs);
      if m.key in seen {
        FreshCoversNewTriples(seen, rest);
      } else {
        var tail := Fresh(seen + {m.key}, rest);
        FreshCoversNewTriples(seen + {m.key}, rest);
        KeySetConcat([m], tail);
        KeySetSingleton(m);
      }
    }
  }

  /** The selection lists its messages in snapshot order. */
  lemma {:induction false} FreshInSnapshotOrder(seen: set<Key>, docs: seq<Document>)
    ensures IsSubsequence(Fresh(seen, docs), AsMessages(docs))
    decreases |docs|
  {
    if |docs| > 0 {
      var m, rest := ToMessage(docs[0]), docs[1..];
      AsMessagesUnfold(docs);
      if m.key in seen {
        FreshInSnapshotOrder(seen, rest);
      } else {
        var tail := Fresh(seen + {m.key}, rest);
        FreshInSnapshotOrder(seen + {m.key}, rest);
        assert ([m] + tail)[1..] == tail;
      }
    }
  }

  lemma KeySetConcat(a: seq<Message>, b: seq<Message>)
    ensures KeySet(a + b) == KeySet(a) + KeySet(b)
  {
    assert forall m :: m in a + b <==> m in a || m in b;
  }

  /** Appending entries whose triples are new and distinct keeps the triples distinct. */
  lemma DistinctKeysConcat(a: seq<Message>, b: seq<Message>)
    requires DistinctKeys(a) && DistinctKeys(b)
    requires forall i :: 0 <= i < |b| ==> b[i].key !in KeySet(a)
    ensures DistinctKeys(a + b)
  {
    forall i, j | 0 <= i < j < |a + b| ensures (a + b)[i].key != (a + b)[j].key {
      if i < |a| && j >= |a| {
        assert a[i] in a;
        assert (a + b)[j] == b[j - |a|];
      }
    }
  }

  /** The snapshot loop appends exactly the reference selection of new triples. */
  lemma {:induction false} MergedIsFreshAppended(l: seq<Message>, docs: seq<Document>)
    ensures Merged(l, docs) == l + Fresh(KeySet(l), docs)
    decreases |docs|
  {
    if |docs| > 0 {
      var m, rest := ToMessage(docs[0]), docs[1..];
      if m.key in KeySet(l) {
        SkipListedTriple(l, docs);
        MergedIsFreshAppended(l, rest);
      } else {
        TakeNewTriple(l, docs);
        MergedIsFreshAppended(l + [m], rest);
        var tail := Fresh(KeySet(l + [m]), rest);
        assert (l + [m]) + tail == l + ([m] + tail);
      }
    }
  }

  /** A first document whose triple is listed is passed over by both the loop and the selection. */
  lemma SkipListedTriple(l: seq<Message>, docs: seq<Document>)
    requires |docs| > 0 && ToMessage(docs[0]).key in KeySet(l)
    ensures Merged(l, docs) == Merged(l, docs[1..])
    ensures Fresh(KeySet(l), docs) == Fresh(KeySet(l), docs[1..])
  {
    MergedUnfold(l, docs);
  }

  /** A first document with a new triple is taken by both the loop and the selection. */
  lemma TakeNewTriple(l: seq<Message>, docs: seq<Document>)
    requires |docs| > 0 && ToMessage(docs[0]).key !in KeySet(l)
    ensures Merged(l, docs) == Merged(l + [ToMessage(docs[0])], docs[1..])
    ensures Fresh(KeySet(l), docs) == [ToMessage(docs[0])] + Fresh(KeySet(l + [ToMessage(docs[0])]), docs[1..])
  {
    MergedUnfold(l, docs);
    KeySetAppend(l, ToMessage(docs[0]));
  }

  lemma KeySetAppend(l: seq<Message>, m: Message)
    ensures KeySet(l + [m]) == KeySet(l) + {m.key}
  {
    KeySetConcat(l, [m]);
    KeySetSingleton(m);
  }

  lemma MergedUnfold(l: seq<Message>, docs: seq<Document>)
    requires |docs| > 0
    ensures Merged(l, docs) == Merged(Step(l, docs[0]), docs[1..])
  {
  }

  /** Merging only appends, and what it appends is taken from the snapshot in snapshot order. */
  lemma MergeAppendsInSnapshotOrder(l: seq<Message>, docs: seq<Document>)
    ensures |l| <= |Merged(l, docs)| && Merged(l, docs)[..|l|] == l
    ensures IsSubsequence(Merged(l, docs)[|l|..], AsMessages(docs))
  {
    MergedIsFreshAppended(l, docs);
    FreshInSnapshotOrder(KeySet(l), docs);
    assert Merged(l, docs)[|l|..] == Fresh(KeySet(l), docs);
  }

  /** A document whose triple is already listed adds nothing; the listed entry, id included, stays. */
  lemma MergeSkipsListedTriples(l: seq<Message>, docs: seq<Document>)
    ensures |l| <= |Merged(l, docs)|
    ensures forall i :: |l| <= i < |Merged(l, docs)| ==> Merged(l, docs)[i].key !in KeySet(l)
    ensures forall i :: 0 <= i < |l| ==> Merged(l, docs)[i] == l[i]
  {
    MergedIsFreshAppended(l, docs);
    FreshAvoidsSeen(KeySet(l), docs);
  }

  /** Merging keeps the triples of the list distinct. */
  lemma MergeKeepsKeysDistinct(l: seq<Message>, docs: seq<Document>)
    requires DistinctKeys(l)
    ensures DistinctKeys(Merged(l, docs))
  {
    MergedIsFreshAppended(l, docs);
    FreshAvoidsSeen(KeySet(l), docs);
    DistinctKeysConcat(l, Fresh(KeySet(l), docs));
  }

  /** After merging, every triple of the list and of the snapshot is listed, and no other. */
  lemma MergeCoversSnapshot(l: seq<Message>, docs: seq<Document>)
    ensures KeySet(Merged(l, docs)) == KeySet(l) + KeySet(AsMessages(docs))
  {
    MergedIsFreshAppended(l, docs);
    FreshCoversNewTriples(KeySet(l), docs);
    KeySetConcat(l, Fresh(KeySet(l), docs));
  }

  /** Delivering the same snapshot a second time changes nothing. */
  lemma MergeIdempotent(l: seq<Message>, docs: seq<Document>)
    ensures Merged(Merged(l, docs), docs) == Merged(l, docs)
  {
    var once := Merged(l, docs);
    MergeCoversSnapshot(l, docs);
    MergedIsFreshAppended(once, docs);
    FreshCoversNewTriples(KeySet(once), docs);
    EmptyKeySet(Fresh(KeySet(once), docs));
  }

  lemma EmptyKeySet(l: seq<Message>)
    ensures KeySet(l) == {} ==> l == []
  {
    if |l| > 0 {
      assert l[0].key in KeySet(l);
    }
  }

  /** Two snapshots in a row merge like one snapshot holding the documents of both. */
  lemma {:induction false} MergeSequential(l: seq<Message>, first: seq<Document>, second: seq<Document>)
    ensures Merged(Merged(l, first), second) == Merged(l, first + second)
    decreases |first|
  {
    if |first| > 0 {
      assert (first + second)[0] == first[0];
      assert (first + second)[1..] == first[1..] + second;
      MergeSequential(Step(l, first[0]), first[1..], second);
    } else {
      assert first + second == second;
    }
  }

  /** The de-duplication is by triple: a second document with an equal triple is dropped whatever its id. */
  lemma EqualTriplesCollapse(l: seq<Message>, d1: Document, d2: Document)
    requires ToMessage(d1).key == ToMessage(d2).key
    ensures Merged(l, [d1, d2]) == Merged(l, [d1])
    ensures |Merged(l, [d1, d2])| <= |l| + 1
  {
    var after := Step(l, d1);
    assert HasKey(after, ToMessage(d2).key) by {
      if !HasKey(l, ToMessage(d1).key) {
        assert after[|l|] == ToMessage(d1);
      }
    }
    assert Step(after, d2) == after;
    assert [d1, d2][1..] == [d2];
    assert Merged(l, [d1, d2]) == Merged(after, [d2]) == Merged(after, []);
    assert Merged(l, [d1]) == Merged(after, []);
  }

  /** A document whose triple changed is listed again under the same id. */
  lemma ChangedDocumentListedTwice(l: seq<Message>, before: Document, after: Document)
    requires before.id == after.id
    requires ToMessage(before).key != ToMessage(after).key
    requires !HasKey(l, ToMessage(before).key) && !HasKey(l, ToMessage(after).key)
    ensures Merged(l, [before, after]) == l + [ToMessage(before), ToMessage(after)]
  {
    var first, second := ToMessage(before), ToMessage(after);
    var mid := l + [first];
    assert Step(l, before) == mid;
    KeySetConcat(l, [first]);
    KeySetSingleton(first);
    assert Step(mid, after) == mid + [second];
    assert [before, after][1..] == [after];
    MergedUnfold(l, [before, after]);
    MergedUnfold(mid, [after]);
    assert [after][1..] == [];
    assert mid + [second] == l + [first, second];
  }

  // ---------------------------------------------------------------------------
  // Removing by document id

  /** `removeIf { it.first == id }`: every entry with that id goes, the rest keep their order. */
  function Without(l: seq<Message>, id: string): (r: seq<Message>)
    ensures forall i :: 0 <= i < |r| ==> r[i].id != id
    ensures forall m: Message :: m.id != id ==> multiset(r)[m] == multiset(l)[m]
    ensures IsSubsequence(r, l)
    decreases |l|
  {
    if |l| == 0 then []
    else
      var rest := Without(l[1..], id);
      assert l == [l[0]] + l[1..];
      if l[0].id == id then rest else [l[0]] + rest
  }

  /** Removing an id that is not listed changes nothing. */
  lemma {:induction false} WithoutAbsentId(l: seq<Message>, id: string)
    requires forall i :: 0 <= i < |l| ==> l[i].id != id
    ensures Without(l, id) == l
    decreases |l|
  {
    if |l| > 0 {
      WithoutAbsentId(l[1..], id);
      assert l == [l[0]] + l[1..];
    }
  }

  /** Every element of a subsequence is an element of the whole. */
  lemma {:induction false} SubsequenceMembers<T>(a: seq<T>, b: seq<T>)
    requires IsSubsequence(a, b)
    ensures forall x :: x in a ==> x in b
    decreases |b|
  {
    if |a| > 0 {
      if a[0] == b[0] && IsSubsequence(a[1..], b[1..]) {
        SubsequenceMembers(a[1..], b[1..]);
        assert forall x :: x in a ==> x == a[0] || x in a[1..];
      } else {
        SubsequenceMembers(a, b[1..]);
      }
    }
  }

  /** Leaving entries out keeps the triples distinct. */
  lemma {:induction false} SubsequenceKeepsKeysDistinct(a: seq<Message>, b: seq<Message>)
    requires IsSubsequence(a, b) && DistinctKeys(b)
    ensures DistinctKeys(a)
    decreases |b|
  {
    if |a| > 0 {
      assert DistinctKeys(b[1..]) by {
        forall i, j | 0 <= i < j < |b| - 1 ensures b[1..][i].key != b[1..][j].key {
          assert b[1..][i] == b[i + 1] && b[1..][j] == b[j + 1];
        }
      }
      if a[0] == b[0] && IsSubsequence(a[1..], b[1..]) {
        SubsequenceKeepsKeysDistinct(a[1..], b[1..]);
        SubsequenceMembers(a[1..], b[1..]);
        forall j | 0 < j < |a| ensures a[0].key != a[j].key {
          assert a[j] == a[1..][j - 1];
          assert a[j] in b[1..];
          var k :| 0 <= k < |b| - 1 && b[1..][k] == a[j];
          assert b[k + 1] == a[j];
        }
      } else {
        SubsequenceKeepsKeysDistinct(a, b[1..]);
      }
    }
  }

  /** Removal keeps the triples of the list distinct. */
  lemma WithoutKeepsKeysDistinct(l: seq<Message>, id: string)
    requires DistinctKeys(l)
    ensures DistinctKeys(Without(l, id))
  {
    SubsequenceKeepsKeysDistinct(Without(l, id), l);
  }

  // ---------------------------------------------------------------------------
  // The list as the screen holds it

  class MessageList {
    var msgs: seq<Message>

    /** No two entries carry the same triple. */
    ghost predicate Valid()
      reads this
    {
      DistinctKeys(msgs)
    }

    constructor ()
      ensures Valid() && msgs == []
    {
      msgs := [];
    }

    /** The snapshot loop: each document is appended unless its triple is already listed. */
    method MergeSnapshot(docs: seq<Document>)
      requires Valid()
      modifies this
      ensures Valid()
      ensures msgs == Merged(old(msgs), docs)
    {
      var i := 0;
      while i < |docs|
        invariant 0 <= i <= |docs|
        invariant Merged(msgs, docs[i..]) == Merged(old(msgs), docs)
      {
        assert docs[i..][1..] == docs[i + 1..];
        var m := ToMessage(docs[i]);
        if !HasKey(msgs, m.key) {
          msgs := msgs + [m];
        }
        i := i + 1;
      }
      assert docs[|docs|..] == [];
      MergeKeepsKeysDistinct(old(msgs), docs);
    }

    /** The snapshot listener: an error, or a missing snapshot, leaves the list as it is. */
    method OnNotification(n: Notification)
      requires Valid()
      modifies this
      ensures Valid()
      ensures n.error || n.snapshot.None? ==> msgs == old(msgs)
      ensures !n.error && n.snapshot.Some? ==> msgs == Merged(old(msgs), n.snapshot.value)
    {
      if n.error {
        return;
      }
      if n.snapshot.Some? {
        MergeSnapshot(n.snapshot.value);
      }
    }

    /** Local removal of every entry with the given document id. */
    method RemoveById(id: string)
      requires Valid()
      modifies this
      ensures Valid()
      ensures msgs == Without(old(msgs), id)
    {
      WithoutKeepsKeysDistinct(msgs, id);
      msgs := Without(msgs, id);
    }

    /** The delete callback: the entry leaves the list only once the store confirmed the delete. */
    method OnDeleteResult(id: string, outcome: DeleteOutcome)
      requires Valid()
      modifies this
      ensures Valid()
      ensures outcome == DeleteSucceeded ==> msgs == Without(old(msgs), id)
      ensures outcome == DeleteFailed ==> msgs == old(msgs)
    {
      if outcome == DeleteSucceeded {
        RemoveById(id);
      }
    }
  }

  // ---------------------------------------------------------------------------
  // The time shown on a message card

  const SECONDS_FIELD: string := "seconds="
  const INVALID_TIMESTAMP: string := "Invalid timestamp"

  /** `createdAt.substringAfter("seconds=").substringBefore(",")`. */
  function SecondsText(createdAt: string): (r: string)
    ensures ',' !in r && |r| <= |createdAt|
  {
    var after := SubstringAfter(createdAt, SECONDS_FIELD);
    var r := SubstringBefore(after, ",");
    assert ',' !in r by {
      var found := IndexOf(after, ",");
      if found.None? {
        CommaFreeWhenNotFound(after);
      } else {
        NoCommaBeforeFirst(after, found.value);
      }
    }
    r
  }

  /** The epoch seconds read from the text of `createdAt`, or none when `toLong` throws. */
  function EpochSeconds(createdAt: string): (r: Option<int>)
    ensures r.Some? ==> MIN_LONG <= r.value <= MAX_LONG
  {
    ParseLong(SecondsText(createdAt))
  }

  /**
   * The card's time label. `format` stands for formatting the epoch second as
   * `dd-MM-yyyy HH:mm` in the device's time zone; `None` is that call throwing.
   */
  function TimestampLabel(createdAt: string, format: int -> Option<string>): (r: string)
    ensures EpochSeconds(createdAt).None? ==> r == INVALID_TIMESTAMP
    ensures EpochSeconds(createdAt).Some? && format(EpochSeconds(createdAt).value).None? ==> r == INVALID_TIMESTAMP
    ensures EpochSeconds(createdAt).Some? && format(EpochSeconds(createdAt).value).Some? ==>
              r == format(EpochSeconds(createdAt).value).value
  {
    match EpochSeconds(createdAt)
    case None => INVALID_TIMESTAMP
    case Some(n) =>
      match format(n)
      case None => INVALID_TIMESTAMP
      case Some(text) => text
  }

  /** Text without any character `d` starts with holds no occurrence of `d`. */
  lemma NoOccurrenceWithoutFirstChar(s: string, d: string)
    requires |d| > 0 && d[0] !in s
    ensures !Contains(s, d) && IndexOf(s, d) == None
  {
    forall j: nat | j <= |s| ensures !OccursAt(s, d, j) {
      if j + |d| <= |s| {
        assert s[j..j + |d|][0] == s[j] != d[0];
      }
    }
    ContainsIffIndexOf(s, d);
  }

  /** The first "seconds=" of the store's timestamp text is the one after "Timestamp(". */
  lemma AfterSecondsField(digits: string, tail: string)
    ensures SubstringAfter("Timestamp(seconds=" + digits + tail, SECONDS_FIELD) == digits + tail
  {
    var s := "Timestamp(seconds=" + digits + tail;
    assert s[..18] == "Timestamp(seconds=";
    assert s[18..] == digits + tail;
    assert OccursAt(s, SECONDS_FIELD, 10) by {
      assert s[10..18] == s[..18][10..18] == SECONDS_FIELD;
    }
    forall j: nat | j < 10 ensures !OccursAt(s, SECONDS_FIELD, j) {
      var window := s[j..j + 8];
      assert window[0] == s[j] && window[1] == s[j + 1];
      assert s[j] == s[..18][j] && s[j + 1] == s[..18][j + 1];
      assert s[j] != 's' || s[j + 1] != 'e';
    }
    IndexOfIsFirst(s, SECONDS_FIELD, 10);
  }

  /** Text before the first comma, when what precedes that comma is comma-free. */
  lemma BeforeFirstComma(x: string, y: string)
    requires ',' !in x
    ensures SubstringBefore(x + "," + y, ",") == x
  {
    IndexOfCharAfter(x, ',', y);
    assert x + "," + y == x + [','] + y;
    assert (x + [','] + y)[..|x|] == x;
  }

  /** The seconds field is read whatever the text after its comma. */
  lemma SecondsFieldRead(digits: string, rest: string)
    requires ',' !in digits
    ensures SecondsText("Timestamp(seconds=" + digits + "," + rest) == digits
  {
    assert "Timestamp(seconds=" + digits + "," + rest == "Timestamp(seconds=" + digits + ("," + rest);
    AfterSecondsField(digits, "," + rest);
    assert digits + ("," + rest) == digits + "," + rest;
    BeforeFirstComma(digits, rest);
  }

  /** The store's timestamp text `Timestamp(seconds=N, …)` yields N. */
  lemma StoreTimestampSeconds(n: int, rest: string)
    requires MIN_LONG <= n <= MAX_LONG
    ensures EpochSeconds("Timestamp(seconds=" + LongText(n) + "," + rest) == Some(n)
  {
    LongTextHasNoComma(n);
    SecondsFieldRead(LongText(n), rest);
    ParseLongText(n);
  }

  /**
   * Text with neither "seconds=" nor a comma is parsed whole: a bare number
   * such as "123" is taken as that many epoch seconds.
   */
  lemma BareTextParsedWhole(createdAt: string)
    requires !Contains(createdAt, SECONDS_FIELD) && ',' !in createdAt
    ensures EpochSeconds(createdAt) == ParseLong(createdAt)
  {
    ContainsIffIndexOf(createdAt, SECONDS_FIELD);
    IndexOfAbsentChar(createdAt, ',');
  }

  /** Every in-range number written plainly is accepted as epoch seconds. */
  lemma BareNumberAccepted(n: int)
    requires MIN_LONG <= n <= MAX_LONG
    ensures EpochSeconds(LongText(n)) == Some(n)
  {
    var s := LongText(n);
    assert 's' !in s by {
      if n < 0 {
        assert forall k :: 1 <= k < |s| ==> s[k] == DecimalDigits(-n)[k - 1];
      }
    }
    NoOccurrenceWithoutFirstChar(s, SECONDS_FIELD);
    LongTextHasNoComma(n);
    BareTextParsedWhole(s);
    ParseLongText(n);
  }
}
