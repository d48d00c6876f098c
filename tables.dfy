/** The table grid and the table-details box of the restaurant screen. Each of the twelve
    tables is a rectangle filled green (free) or red (occupied) under a label that follows
    the fill. Clicking a free table occupies it; clicking an occupied one fills the details
    box and adds a "Cheque" button to it, whose confirmed dialog frees the table again. */
module Tables {
  import opened JavaStrings

  /** A table rectangle's fill: green, red, or any other colour. Only Green and Red are ever
      assigned; Other is there so the click handler's fallback branch has an input. */
  datatype Color = Green | Red | Other

  /** One table pane: the number and capacity its handlers captured, its cell in the grid
      pane (column, row), its rectangle's fill and its label's text. */
  datatype Table = Table(number: nat, capacity: nat, col: nat, row: nat, fill: Color, text: string)

  const Rows := 4
  const Cols := 3
  const TableCount := Rows * Cols

  /** The capacities the capacity generator picks from. */
  const Capacities: seq<nat> := [2, 4, 8]

  /** The label of a free table. */
  function BaseLabel(number: nat, capacity: nat): string
  {
    "Table " + DecimalString(number) + "\nCapacity: " + DecimalString(capacity)
  }

  /** What the label of an occupied table has after its base label. */
  const OccupiedSuffix := "\nOccupied"

  /** The three texts of the details box after a click on an occupied table. */
  function InfoText(number: nat, capacity: nat): string
  {
    BaseLabel(number, capacity) + "\nStatus: Occupied"
  }

  function OrderText(number: nat): string
  {
    "Table " + DecimalString(number) + " Order:\n- <Food and drinks>\n- <Food and drinks>\n- <Food and drinks>"
  }

  const BillText := "Total Bill: $XXX"

  /** The label follows the fill: the base label on green, the base label followed by
      "\nOccupied" on red. No other fill occurs. */
  predicate Consistent(t: Table)
  {
    (t.fill == Green && t.text == BaseLabel(t.number, t.capacity)) ||
    (t.fill == Red && t.text == BaseLabel(t.number, t.capacity) + OccupiedSuffix)
  }

  /** createTablePane: a free table with its base label. */
  function NewTable(number: nat, capacity: nat, col: nat, row: nat): (t: Table)
    ensures t.number == number && t.capacity == capacity && t.col == col && t.row == row
    ensures Consistent(t) && t.fill == Green
  {
    Table(number, capacity, col, row, Green, BaseLabel(number, capacity))
  }

  /** The click handler on a table that is not red: green turns red with "\nOccupied"
      after the base label; any other fill falls back to green with the base label. On a
      consistent table the fallback is dead: the table ends up occupied, its label
      extended by "\nOccupied". */
  function ClickNotRed(t: Table): (r: Table)
    ensures r.number == t.number && r.capacity == t.capacity && r.col == t.col && r.row == t.row
    ensures Consistent(r)
    ensures Consistent(t) && t.fill != Red ==> r.fill == Red && r.text == t.text + OccupiedSuffix
  {
    if t.fill == Green then
      t.(fill := Red, text := BaseLabel(t.number, t.capacity) + OccupiedSuffix)
    else
      t.(fill := Green, text := BaseLabel(t.number, t.capacity))
  }

  /** The OK button of the make-available dialog: green fill, base label. An occupied
      table loses exactly the "\nOccupied" its label had; a free table is left as it was. */
  function MakeAvailable(t: Table): (r: Table)
    ensures r.number == t.number && r.capacity == t.capacity && r.col == t.col && r.row == t.row
    ensures r.fill == Green && Consistent(r)
    ensures Consistent(t) && t.fill == Red ==> t.text == r.text + OccupiedSuffix
    ensures Consistent(t) && t.fill == Green ==> r == t
  {
    t.(fill := Green, text := BaseLabel(t.number, t.capacity))
  }

  /** Confirming twice is confirming once. */
  lemma MakeAvailableIdempotent(t: Table)
    ensures MakeAvailable(MakeAvailable(t)) == MakeAvailable(t)
  {
  }

  /** Occupying a free table and then confirming its cheque gives back the free table. */
  lemma OccupyThenRelease(t: Table)
    requires Consistent(t) && t.fill == Green
    ensures MakeAvailable(ClickNotRed(t)) == t
  {
  }

  /** Freeing an occupied table and clicking it again gives back the occupied table. */
  lemma ReleaseThenOccupy(t: Table)
    requires Consistent(t) && t.fill == Red
    ensures ClickNotRed(MakeAvailable(t)) == t
  {
  }

  /** createTableInfoGrid: four rows of three tables, numbered from 1 in row-major order,
      placed from grid row 1 (row 0 holds the title), each with the next capacity drawn. */
  method CreateTableInfoGrid(capacities: seq<nat>) returns (tables: seq<Table>)
    requires |capacities| == TableCount
    ensures |tables| == TableCount
    ensures forall k :: 0 <= k < TableCount ==>
      tables[k].number == k + 1 && tables[k].capacity == capacities[k] &&
      tables[k].fill == Green && Consistent(tables[k])
    ensures forall k :: 0 <= k < TableCount ==> tables[k].col == k % Cols && tables[k].row == k / Cols + 1
    ensures forall k :: 0 <= k < TableCount ==>
      1 <= tables[k].row <= Rows && tables[k].col < Cols &&
      tables[k].number == Cols * (tables[k].row - 1) + tables[k].col + 1
  {
    tables := [];
    var tableNumber := 1;
    for row := 0 to Rows
      invariant tableNumber == Cols * row + 1 && |tables| == Cols * row
      invariant forall k :: 0 <= k < |tables| ==> tables[k] == NewTable(k + 1, capacities[k], k % Cols, k / Cols + 1)
    {
      for col := 0 to Cols
        invariant tableNumber == Cols * row + col + 1 && |tables| == Cols * row + col
        invariant forall k :: 0 <= k < |tables| ==> tables[k] == NewTable(k + 1, capacities[k], k % Cols, k / Cols + 1)
      {
        tables := tables + [NewTable(tableNumber, capacities[tableNumber - 1], col, row + 1)];
        tableNumber := tableNumber + 1;
      }
    }
  }

  /** A child of the details box: a bold title, one of the three texts, or a box holding a
      "Cheque" button whose handler frees the given table. */
  datatype DetailChild = Title(caption: string) | InfoField | OrderField | BillField | ChequeButton(table: nat)

  /** The details box as the screen builds it: its own title, then the three titled texts. */
  const InitialDetails: seq<DetailChild> :=
    [Title("Table Details"), Title("Table Information"), InfoField, Title("Table Order"), OrderField,
     Title("Total Bill"), BillField]

  /** Twelve tables numbered in order and placed row-major from grid row 1, each with a
      generated capacity and a label that follows its fill. */
  predicate ValidGrid(tables: seq<Table>)
  {
    |tables| == TableCount &&
    forall k :: 0 <= k < |tables| ==>
      tables[k].number == k + 1 && tables[k].col == k % Cols && tables[k].row == k / Cols + 1 &&
      tables[k].capacity in Capacities && Consistent(tables[k])
  }

  /** Replacing a table by a consistent one with the same number, capacity and grid cell
      keeps the grid valid. */
  lemma ReplaceKeepsGrid(tables: seq<Table>, k: nat, t: Table)
    requires ValidGrid(tables) && k < |tables|
    requires t.number == tables[k].number && t.capacity == tables[k].capacity
    requires t.col == tables[k].col && t.row == tables[k].row && Consistent(t)
    ensures ValidGrid(tables[k := t])
  {
  }

  /** The table grid and the details box, with the three texts' current contents. */
  class Floor {
    var tables: seq<Table>
    var infoText: string
    var orderText: string
    var billText: string
    var details: seq<DetailChild>

    /** A valid grid; every cheque button refers to one of its tables. */
    ghost predicate Valid()
      reads this
    {
      ValidGrid(tables) && (forall b :: b in details && b.ChequeButton? ==> 1 <= b.table <= TableCount)
    }

    constructor (capacities: seq<nat>)
      requires |capacities| == TableCount
      requires forall k :: 0 <= k < |capacities| ==> capacities[k] in Capacities
      ensures Valid()
      ensures forall k :: 0 <= k < TableCount ==> tables[k].fill == Green && tables[k].capacity == capacities[k]
      ensures infoText == "" && orderText == "" && billText == "" && details == InitialDetails
    {
      var grid := CreateTableInfoGrid(capacities);
      tables := grid;
      infoText, orderText, billText := "", "", "";
      details := InitialDetails;
    }

    /** updateTableDetails: overwrite the three texts. */
    method UpdateTableDetails(info: string, order: string, bill: string)
      modifies this
      ensures infoText == info && orderText == order && billText == bill
      ensures tables == old(tables) && details == old(details)
    {
      infoText, orderText, billText := info, order, bill;
    }

    /** A click on table n. A red table keeps its fill and label; the details box shows its
        information, the placeholder order and bill, and gains one cheque button for it. A
        green table turns red with "\nOccupied" after its label and nothing else changes.
        Either way the table is occupied afterwards. */
    method Click(n: nat)
      requires Valid() && 1 <= n <= TableCount
      modifies this
      ensures Valid()
      ensures tables[n - 1].fill == Red
      ensures old(tables[n - 1].fill) == Red ==>
        tables == old(tables) &&
        infoText == InfoText(n, tables[n - 1].capacity) && orderText == OrderText(n) && billText == BillText &&
        details == old(details) + [ChequeButton(n)]
      ensures old(tables[n - 1].fill) == Green ==>
        tables == old(tables)[n - 1 := old(tables[n - 1]).(fill := Red, text := old(tables[n - 1].text) + OccupiedSuffix)] &&
        infoText == old(infoText) && orderText == old(orderText) && billText == old(billText) &&
        details == old(details)
    {
      var t := tables[n - 1];
      if t.fill == Red {
        UpdateTableDetails(InfoText(t.number, t.capacity), OrderText(t.number), BillText);
        details := details + [ChequeButton(t.number)];
      } else {
        ReplaceKeepsGrid(tables, n - 1, ClickNotRed(t));
        tables := tables[n - 1 := ClickNotRed(t)];
      }
    }

    /** The make-available dialog of a cheque button for table n. OK frees the table with
        its base label, whether it was occupied or already free; Cancel changes nothing.
        The details box is left as it is either way. */
    method ChequeConfirm(n: nat, ok: bool)
      requires Valid() && ChequeButton(n) in details
      modifies this
      ensures Valid()
      ensures details == old(details)
      ensures infoText == old(infoText) && orderText == old(orderText) && billText == old(billText)
      ensures ok ==>
        tables == old(tables)[n - 1 := MakeAvailable(old(tables[n - 1]))] &&
        tables[n - 1].fill == Green && tables[n - 1].text == BaseLabel(n, tables[n - 1].capacity)
      ensures !ok ==> tables == old(tables)
    {
      if ok {
        ReplaceKeepsGrid(tables, n - 1, MakeAvailable(tables[n - 1]));
        tables := tables[n - 1 := MakeAvailable(tables[n - 1])];
      }
    }
  }
}
