/**
 * The book entry form: its text fields, the status dropdown, the cover image
 * picker and the "Add Book" button, and the book record the button hands to
 * the store.
 */
module AddBooksScreen {
  import opened KotlinText

  const STATUS_PLACEHOLDER: string := "Status"
  const READING: string := "Reading"
  const READ: string := "Read"

  /** The two entries of the status dropdown. */
  datatype StatusItem = ReadingItem | ReadItem {
    function Label(): string
    {
      match this
      case ReadingItem => READING
      case ReadItem => READ
    }
  }

  /** The record the button inserts into the "books" collection. */
  datatype Book = Book(
    id: int,
    title: string,
    cover: string,
    status: string,
    summary: string,
    keyTakeaways: seq<string>,
    lessons: seq<string>,
    notes: seq<string>,
    links: seq<string>)

  /** The free-text fields the user types into. */
  datatype TextField = Title | Cover | Summary | KeyTakeaways | Lessons | Notes | Links

  /** Everything on the form that the user's actions change. */
  datatype FormState = FormState(
    title: string,
    cover: string,
    status: string,
    summary: string,
    keyTakeaways: string,
    lessons: string,
    notes: string,
    links: string,
    isAdding: bool,
    expanded: bool)

  // ---------------------------------------------------------------------------
  // The list fields

  /** Every item is a real item: not empty, and holding no comma. */
  predicate CleanItems(xs: seq<string>)
  {
    forall k :: 0 <= k < |xs| ==> xs[k] != "" && ',' !in xs[k]
  }

  /** `filter { it.isNotEmpty() }`. */
  function DropEmpty(xs: seq<string>): (r: seq<string>)
    ensures forall k :: 0 <= k < |r| ==> r[k] != ""
    ensures forall x :: x in r <==> x in xs && x != ""
    ensures |r| <= |xs|
    decreases |xs|
  {
    if |xs| == 0 then []
    else
      var rest := DropEmpty(xs[1..]);
      assert xs == [xs[0]] + xs[1..];
      if xs[0] == "" then rest else [xs[0]] + rest
  }

  /** `text.split(",").filter { it.isNotEmpty() }`: the non-empty comma-separated pieces. */
  function ListField(text: string): (r: seq<string>)
    ensures CleanItems(r)
  {
    var pieces := Split(text);
    var r := DropEmpty(pieces);
    assert forall k :: 0 <= k < |r| ==> r[k] in pieces;
    r
  }

  /** Dropping empty strings from a list that has none changes nothing. */
  lemma {:induction false} DropEmptyOfNonEmpty(xs: seq<string>)
    requires forall k :: 0 <= k < |xs| ==> xs[k] != ""
    ensures DropEmpty(xs) == xs
    decreases |xs|
  {
    if |xs| > 0 {
      DropEmptyOfNonEmpty(xs[1..]);
      assert xs == [xs[0]] + xs[1..];
    }
  }

  /**
   * Entering non-empty, comma-free items separated by commas gives back
   * exactly those items; nothing is trimmed, so " a" keeps its space.
   */
  lemma {:induction false} ListFieldRoundTrip(items: seq<string>)
    requires CleanItems(items)
    ensures ListField(Join(items)) == items
  {
    if |items| == 0 {
      ListFieldEmpty();
    } else {
      SplitJoin(items);
      DropEmptyOfNonEmpty(items);
    }
  }

  /** Empty pieces count for nothing: a doubled comma adds no item. */
  lemma ListFieldIgnoresEmptyPieces(x: string, y: string)
    ensures ListField(x + ",," + y) == ListField(x + "," + y)
  {
    calc {
      ListField(x + ",," + y);
      { assert x + ",," + y == x + "," + ("," + y); }
      ListField(x + "," + ("," + y));
      { ListFieldComma(x, "," + y); }
      ListField(x) + ListField("," + y);
      { assert "," + y == "" + "," + y; ListFieldComma("", y); ListFieldEmpty(); }
      ListField(x) + ListField(y);
      { ListFieldComma(x, y); }
      ListField(x + "," + y);
    }
  }

  lemma ListFieldEmpty()
    ensures ListField("") == []
  {
    SplitCommaFree("");
  }

  lemma {:induction false} DropEmptyConcat(a: seq<string>, b: seq<string>)
    ensures DropEmpty(a + b) == DropEmpty(a) + DropEmpty(b)
    decreases |a|
  {
    if |a| > 0 {
      assert (a + b)[1..] == a[1..] + b;
      DropEmptyConcat(a[1..], b);
    } else {
      assert a + b == b;
    }
  }

  lemma ListFieldComma(x: string, y: string)
    ensures ListField(x + "," + y) == ListField(x) + ListField(y)
  {
    SplitAtComma(x, y);
    DropEmptyConcat(Split(x), Split(y));
  }

  // ---------------------------------------------------------------------------
  // The form

  /** A record the store may receive: the guards passed and every list item is a real item. */
  ghost predicate Persistable(b: Book)
  {
    && b.title != "" && b.summary != "" && b.cover != ""
    && b.status in {STATUS_PLACEHOLDER, READING, READ}
    && CleanItems(b.keyTakeaways) && CleanItems(b.lessons) && CleanItems(b.notes) && CleanItems(b.links)
  }

  class BookForm {
    const id: int
    var title: string
    var cover: string
    var status: string
    var summary: string
    var keyTakeaways: string
    var lessons: string
    var notes: string
    var links: string
    var isAdding: bool
    var expanded: bool

    /** The status is always the placeholder or one of the two dropdown labels. */
    ghost predicate Valid()
      reads this
    {
      status in {STATUS_PLACEHOLDER, READING, READ} && MIN_INT <= id <= MAX_INT
    }

    function State(): FormState
      reads this
    {
      FormState(title, cover, status, summary, keyTakeaways, lessons, notes, links, isAdding, expanded)
    }

    /** `isFormValid`: title and summary are filled in. */
    predicate FormValid(): (valid: bool)
      reads this
      ensures valid <==> |title| > 0 && |summary| > 0
    {
      title != "" && summary != ""
    }

    /** Whether the "Add Book" button takes clicks. */
    predicate SubmitEnabled(): (enabled: bool)
      reads this
      ensures enabled <==> title != "" && summary != "" && !isAdding
    {
      FormValid() && !isAdding
    }

    /** The record the button builds from the current fields. */
    function Record(): (b: Book)
      reads this
      ensures b.id == id && b.title == title && b.cover == cover && b.status == status && b.summary == summary
      ensures b.keyTakeaways == ListField(keyTakeaways) && b.lessons == ListField(lessons)
      ensures b.notes == ListField(notes) && b.links == ListField(links)
      ensures CleanItems(b.keyTakeaways) && CleanItems(b.lessons) && CleanItems(b.notes) && CleanItems(b.links)
    {
      Book(id, title, cover, status, summary,
           ListField(keyTakeaways), ListField(lessons), ListField(notes), ListField(links))
    }

    /** A fresh form; `millis` is the clock reading its id is truncated from. */
    constructor (millis: int)
      requires MIN_LONG <= millis <= MAX_LONG
      ensures Valid()
      ensures id == LongToInt(millis)
      ensures State() == FormState("", "", STATUS_PLACEHOLDER, "", "", "", "", "", false, false)
      ensures !FormValid()
    {
      id := LongToInt(millis);
      title, cover, status, summary := "", "", STATUS_PLACEHOLDER, "";
      keyTakeaways, lessons, notes, links := "", "", "", "";
      isAdding, expanded := false, false;
    }

    /** A text field's `onValueChange`: that field takes the typed text, nothing else moves. */
    method Edit(field: TextField, text: string)
      requires Valid()
      modifies this
      ensures Valid()
      ensures State() == match field
        case Title => old(State()).(title := text)
        case Cover => old(State()).(cover := text)
        case Summary => old(State()).(summary := text)
        case KeyTakeaways => old(State()).(keyTakeaways := text)
        case Lessons => old(State()).(lessons := text)
        case Notes => old(State()).(notes := text)
        case Links => old(State()).(links := text)
      ensures field != Title && field != Summary ==> FormValid() == old(FormValid())
    {
      match field
      case Title => title := text;
      case Cover => cover := text;
      case Summary => summary := text;
      case KeyTakeaways => keyTakeaways := text;
      case Lessons => lessons := text;
      case Notes => notes := text;
      case Links => links := text;
    }

    /** The dropdown icon: opens a closed menu and closes an open one. */
    method ToggleMenu()
      requires Valid()
      modifies this
      ensures Valid()
      ensures State() == old(State()).(expanded := !old(expanded))
      ensures FormValid() == old(FormValid())
    {
      expanded := !expanded;
    }

    /** A click outside the open menu closes it. */
    method DismissMenu()
      requires Valid()
      modifies this
      ensures Valid()
      ensures State() == old(State()).(expanded := false)
    {
      expanded := false;
    }

    /** Picking a dropdown entry sets the status to its label and closes the menu. */
    method ChooseStatus(item: StatusItem)
      requires Valid()
      modifies this
      ensures Valid()
      ensures State() == old(State()).(status := item.Label(), expanded := false)
      ensures status in {READING, READ}
      ensures FormValid() == old(FormValid())
    {
      status := item.Label();
      expanded := false;
    }

    /** The picker icon launches the image picker only while the cover is empty. */
    method PressPickImage() returns (launch: bool)
      ensures launch <==> cover == ""
    {
      launch := cover == "";
    }

    /** A finished upload puts the download URL in the cover field and touches nothing else. */
    method OnCoverUploaded(url: string)
      requires Valid()
      modifies this
      ensures Valid()
      ensures State() == old(State()).(cover := url)
      ensures FormValid() == old(FormValid())
    {
      cover := url;
    }

    /**
     * The "Add Book" button. A disabled button ignores the click; an empty
     * cover aborts before any write; otherwise the form turns to adding and
     * the record is handed to the store.
     */
    method PressAddBook() returns (write: Option<Book>)
      requires Valid()
      modifies this
      ensures Valid()
      ensures write.Some? <==> old(FormValid()) && !old(isAdding) && old(cover) != ""
      ensures write.None? ==> State() == old(State())
      ensures write.Some? ==> State() == old(State()).(isAdding := true)
      ensures write.Some? ==> write.value == old(Record()) && Persistable(write.value)
      ensures write.Some? ==> !SubmitEnabled()
    {
      if !SubmitEnabled() {
        return None;
      }
      if cover == "" {
        return None;
      }
      isAdding := true;
      write := Some(Record());
    }

    /** The store's answer to the insert: either way the form stops adding; success leaves the screen. */
    method OnAddResult(succeeded: bool) returns (navigateUp: bool)
      requires Valid()
      modifies this
      ensures Valid()
      ensures State() == old(State()).(isAdding := false)
      ensures navigateUp == succeeded
    {
      isAdding := false;
      navigateUp := succeeded;
    }
  }
}
