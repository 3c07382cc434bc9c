/**
 * The admin panel's scripts (static/js/admin.js): the Tab key in the content
 * editor, filtering and sorting the posts table, the admin-role toggle and
 * the CSRF token lookup. The add-category form's check is `Text.TrimsToEmpty`.
 */
module Admin {
  import opened Wrappers
  import opened Text

  /** The text before the selection, two spaces, then the text after it. */
  function TabSplice(value: string, start: nat, end: nat): (r: string)
    requires start <= end <= |value|
    ensures |r| == |value| - (end - start) + 2
    ensures r[..start] == value[..start]
    ensures r[start..start + 2] == "  "
    ensures r[start + 2..] == value[end..]
  {
    value[..start] + "  " + value[end..]
  }

  /** Removing the two inserted spaces leaves the text with the selection deleted. */
  lemma TabSpliceUndo(value: string, start: nat, end: nat)
    requires start <= end <= |value|
    ensures var r := TabSplice(value, start, end);
            r[..start] + r[start + 2..] == value[..start] + value[end..]
  {
  }

  /** A `.content-editor` textarea: its value and its selection. */
  class ContentEditor {
    var value: string
    var selectionStart: nat
    var selectionEnd: nat

    /** The browser keeps the selection ordered and within the value. */
    ghost predicate Valid()
      reads this
    {
      selectionStart <= selectionEnd <= |value|
    }

    constructor (value: string)
      ensures Valid() && this.value == value && selectionStart == selectionEnd == |value|
    {
      this.value := value;
      selectionStart, selectionEnd := |value|, |value|;
    }

    /**
     * `keydown`: Tab replaces the selection with two spaces and puts the
     * caret right after them (and the default focus move is prevented);
     * any other key is left to the browser.
     */
    method KeyDown(key: string) returns (defaultPrevented: bool)
      requires Valid()
      modifies this
      ensures Valid()
      ensures defaultPrevented <==> key == "Tab"
      ensures key == "Tab" ==>
                && value == TabSplice(old(value), old(selectionStart), old(selectionEnd))
                && selectionStart == selectionEnd == old(selectionStart) + 2
      ensures key != "Tab" ==>
                value == old(value) && selectionStart == old(selectionStart) && selectionEnd == old(selectionEnd)
    {
      defaultPrevented := key == "Tab";
      if key == "Tab" {
        var start := selectionStart;
        var end := selectionEnd;
        value := TabSplice(value, start, end);
        selectionStart, selectionEnd := start + 2, start + 2;
      }
    }
  }

  /** A `.post-row` of the posts table: title, author, timestamp and whether it is displayed. */
  datatype Row = Row(title: string, author: string, timestamp: int, visible: bool)

  /**
   * The filter keeps a row when its lower-cased title or author contains the
   * lower-cased filter: the empty filter keeps every row, and a filter longer
   * than both the title and the author keeps none.
   */
  predicate RowMatches(row: Row, filter: string)
    ensures filter == "" ==> RowMatches(row, filter)
    ensures RowMatches(row, filter) ==> |filter| <= |row.title| || |filter| <= |row.author|
  {
    ContainsEmpty(Lower(row.title));
    Contains(Lower(row.title), Lower(filter)) || Contains(Lower(row.author), Lower(filter))
  }

  /** A row passes the filter exactly when the filter occurs in its title or author. */
  lemma RowMatchesIff(row: Row, filter: string)
    ensures RowMatches(row, filter) <==>
              (exists k :: OccursAt(Lower(row.title), Lower(filter), k))
              || (exists k :: OccursAt(Lower(row.author), Lower(filter), k))
  {
    ContainsIff(Lower(row.title), Lower(filter));
    ContainsIff(Lower(row.author), Lower(filter));
  }

  /** The orders `#post-sort` offers; any other value leaves the rows as they are. */
  datatype SortKey = ByTitle | ByDateAsc | ByDateDesc | ByAuthor | Unsorted

  function SortKeyOf(sortBy: string): (key: SortKey)
    ensures key == Unsorted <==>
              sortBy != "title" && sortBy != "date-asc" && sortBy != "date-desc" && sortBy != "author"
  {
    if sortBy == "title" then ByTitle
    else if sortBy == "date-asc" then ByDateAsc
    else if sortBy == "date-desc" then ByDateDesc
    else if sortBy == "author" then ByAuthor
    else Unsorted
  }

  /**
   * The sort comparator: negative, zero or positive as `a` goes before, level
   * with or after `b`. Titles and authors compare lower-cased, dates by
   * timestamp, and `Unsorted` compares every pair as equal.
   */
  function Compare(key: SortKey, a: Row, b: Row): (c: int)
    ensures key == ByTitle ==> (c == 0 <==> Lower(a.title) == Lower(b.title))
    ensures key == ByAuthor ==> (c == 0 <==> Lower(a.author) == Lower(b.author))
    ensures key == ByDateAsc ==> (c < 0 <==> a.timestamp < b.timestamp) && (c == 0 <==> a.timestamp == b.timestamp)
    ensures key == ByDateDesc ==> (c < 0 <==> a.timestamp > b.timestamp) && (c == 0 <==> a.timestamp == b.timestamp)
    ensures key == Unsorted ==> c == 0
  {
    LexCompareAntisymmetric(Lower(a.title), Lower(b.title));
    LexCompareAntisymmetric(Lower(a.author), Lower(b.author));
    match key
    case ByTitle => LexCompare(Lower(a.title), Lower(b.title))
    case ByDateAsc => a.timestamp - b.timestamp
    case ByDateDesc => b.timestamp - a.timestamp
    case ByAuthor => LexCompare(Lower(a.author), Lower(b.author))
    case Unsorted => 0
  }

  /** `a` may stand before `b`. */
  predicate InOrder(key: SortKey, a: Row, b: Row) {
    Compare(key, a, b) <= 0
  }

  /** Newest first is oldest first with its arguments swapped. */
  lemma DateDescReversesDateAsc(a: Row, b: Row)
    ensures Compare(ByDateDesc, a, b) == Compare(ByDateAsc, b, a) == -Compare(ByDateAsc, a, b)
  {
  }

  /** Whenever the comparator puts `b` before `a`, `b` may stand before `a`: the order is total. */
  lemma CompareTotal(key: SortKey, a: Row, b: Row)
    ensures Compare(key, a, b) > 0 ==> InOrder(key, b, a)
  {
    LexCompareAntisymmetric(Lower(a.title), Lower(b.title));
    LexCompareAntisymmetric(Lower(a.author), Lower(b.author));
  }

  lemma CompareTransitive(key: SortKey, a: Row, b: Row, c: Row)
    requires InOrder(key, a, b) && InOrder(key, b, c)
    ensures InOrder(key, a, c)
  {
    if key == ByTitle {
      LexCompareTransitive(Lower(a.title), Lower(b.title), Lower(c.title));
    } else if key == ByAuthor {
      LexCompareTransitive(Lower(a.author), Lower(b.author), Lower(c.author));
    }
  }

  /** The first `n` rows are in order. */
  predicate SortedUpTo(rows: seq<Row>, n: int, key: SortKey) {
    forall p, q :: 0 <= p < q < n && q < |rows| ==> InOrder(key, rows[p], rows[q])
  }

  predicate SortedBy(rows: seq<Row>, key: SortKey) {
    SortedUpTo(rows, |rows|, key)
  }

  /**
   * Half-way through inserting row `j` into `rows[..i + 1]`: leaving row `j`
   * aside the prefix is in order, and row `j` may stand before every row
   * after it.
   */
  ghost predicate Inserting(rows: seq<Row>, i: nat, j: nat, key: SortKey) {
    && j <= i < |rows|
    && (forall p, q :: 0 <= p < q <= i && p != j && q != j ==> InOrder(key, rows[p], rows[q]))
    && (forall q :: j < q <= i ==> InOrder(key, rows[j], rows[q]))
  }

  function Swap(rows: seq<Row>, j: nat): (r: seq<Row>)
    requires 0 < j < |rows|
    ensures |r| == |rows| && multiset(r) == multiset(rows)
  {
    rows[j - 1 := rows[j]][j := rows[j - 1]]
  }

  lemma InsertingStart(rows: seq<Row>, i: nat, key: SortKey)
    requires i < |rows| && SortedUpTo(rows, i, key)
    ensures Inserting(rows, i, i, key)
  {
  }

  /** Swapping row `j` with a left neighbour that must come after it keeps the insertion going. */
  lemma InsertingSwap(rows: seq<Row>, i: nat, j: nat, key: SortKey)
    requires Inserting(rows, i, j, key) && 0 < j && Compare(key, rows[j - 1], rows[j]) > 0
    ensures Inserting(Swap(rows, j), i, j - 1, key)
  {
    CompareTotal(key, rows[j - 1], rows[j]);
  }

  /** Once its left neighbour may precede it, row `j` is in place and the prefix is in order. */
  lemma InsertingDone(rows: seq<Row>, i: nat, j: nat, key: SortKey)
    requires Inserting(rows, i, j, key) && (j == 0 || InOrder(key, rows[j - 1], rows[j]))
    ensures SortedUpTo(rows, i + 1, key)
  {
    forall p | 0 <= p < j - 1
      ensures InOrder(key, rows[p], rows[j])
    {
      CompareTransitive(key, rows[p], rows[j - 1], rows[j]);
    }
  }

  /**
   * `Array.prototype.sort` with the comparator, as a stable insertion sort:
   * the rows end up ordered and are the same rows as before; with `Unsorted`
   * nothing moves.
   */
  method SortRows(a: array<Row>, key: SortKey)
    modifies a
    ensures SortedBy(a[..], key)
    ensures multiset(a[..]) == multiset(old(a[..]))
    ensures key == Unsorted ==> a[..] == old(a[..])
  {
    var i := 0;
    while i < a.Length
      invariant 0 <= i <= a.Length
      invariant SortedUpTo(a[..], i, key)
      invariant multiset(a[..]) == multiset(old(a[..]))
      invariant key == Unsorted ==> a[..] == old(a[..])
    {
      InsertAt(a, i, key);
      i := i + 1;
    }
  }

  /** Moves `a[i]` left past every row that must come after it; `a[..i]` is already ordered. */
  method InsertAt(a: array<Row>, i: nat, key: SortKey)
    requires i < a.Length && SortedUpTo(a[..], i, key)
    modifies a
    ensures SortedUpTo(a[..], i + 1, key)
    ensures multiset(a[..]) == multiset(old(a[..]))
    ensures key == Unsorted ==> a[..] == old(a[..])
  {
    InsertingStart(a[..], i, key);
    var j: nat := i;
    while j > 0 && Compare(key, a[j - 1], a[j]) > 0
      invariant Inserting(a[..], i, j, key)
      invariant multiset(a[..]) == multiset(old(a[..]))
      invariant key == Unsorted ==> a[..] == old(a[..])
    {
      InsertingSwap(a[..], i, j, key);
      ghost var before := a[..];
      a[j - 1], a[j] := a[j], a[j - 1];
      assert a[..] == Swap(before, j);
      j := j - 1;
    }
    InsertingDone(a[..], i, j, key);
  }

  /** The `<tbody>` of the posts table, whose children are the post rows in document order. */
  class PostsTable {
    var body: seq<Row>

    constructor (rows: seq<Row>)
      ensures body == rows
    {
      body := rows;
    }

    /**
     * `input` on `#post-filter`: every row is shown exactly when it matches
     * the filter; no row is added, removed or moved.
     */
    method Filter(filterValue: string)
      modifies this
      ensures |body| == |old(body)|
      ensures forall k :: 0 <= k < |body| ==>
                body[k] == old(body[k]).(visible := RowMatches(old(body[k]), filterValue))
    {
      var i := 0;
      while i < |body|
        invariant 0 <= i <= |body| == |old(body)|
        invariant forall k :: 0 <= k < i ==>
                    body[k] == old(body[k]).(visible := RowMatches(old(body[k]), filterValue))
        invariant forall k :: i <= k < |body| ==> body[k] == old(body[k])
      {
        var row := body[i];
        body := body[i := row.(visible := RowMatches(row, filterValue))];
        i := i + 1;
      }
    }

    /**
     * `change` on `#post-sort`: the rows are copied out, sorted, the body is
     * emptied child by child and the sorted rows are appended back. The body
     * then holds the same rows, in order.
     */
    method SortAndReappend(sortBy: string)
      modifies this
      ensures multiset(body) == multiset(old(body))
      ensures |body| == |old(body)|
      ensures SortedBy(body, SortKeyOf(sortBy))
      ensures SortKeyOf(sortBy) == Unsorted ==> body == old(body)
    {
      var rows := body;
      var postRows := new Row[|rows|](k requires 0 <= k < |rows| => rows[k]);
      assert postRows[..] == rows;
      SortRows(postRows, SortKeyOf(sortBy));
      ghost var sorted := postRows[..];
      assert multiset(sorted) == multiset(rows);
      while body != []
        modifies this
        decreases |body|
      {
        body := body[1..];
      }
      var i := 0;
      while i < postRows.Length
        modifies this
        invariant 0 <= i <= postRows.Length
        invariant body == postRows[..i]
      {
        body := body + [postRows[i]];
        i := i + 1;
      }
      assert postRows[..postRows.Length] == sorted;
    }
  }

  /** How the role-update request settled. */
  datatype RoleReply = Updated | Refused(message: string) | RequestFailed

  /** A `.toggle-admin-role` checkbox. */
  class RoleToggle {
    var checked: bool

    constructor (checked: bool)
      ensures this.checked == checked
    {
      this.checked := checked;
    }

    /** The user flips the box; the `change` handler asks for the new value. */
    method Change() returns (requested: bool)
      modifies this
      ensures checked == !old(checked) && requested == checked
    {
      checked := !checked;
      requested := checked;
    }

    /**
     * The request for `requested` settled: on success the box is left as it
     * is; on a refusal or an error it is set to the opposite of `requested`.
     */
    method Settle(requested: bool, reply: RoleReply)
      modifies this
      ensures reply == Updated ==> checked == old(checked)
      ensures reply != Updated ==> checked == !requested
    {
      if reply != Updated {
        checked := !requested;
      }
    }
  }

  /**
   * A change followed by its settlement: the box shows the requested value
   * on success, and its original value when the request was refused or failed.
   */
  method ToggleOutcome(initially: bool, reply: RoleReply) returns (requested: bool, finally: bool)
    ensures requested == !initially
    ensures reply == Updated ==> finally == requested
    ensures reply != Updated ==> finally == initially
  {
    var toggle := new RoleToggle(initially);
    requested := toggle.Change();
    toggle.Settle(requested, reply);
    finally := toggle.checked;
  }

  /** `getCsrfToken`: the content of `<meta name="csrf-token">`, or "" without one. */
  function CsrfToken(metaContent: Option<string>): (token: string)
    ensures metaContent.Some? ==> token == metaContent.value
    ensures metaContent.None? ==> token == ""
  {
    metaContent.GetOr("")
  }
}
