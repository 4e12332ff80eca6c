/** Stock keeping on the health-agent screens (modules/health_agent/app.py):
    the quantity rule of a stock update, the filtering of stock requests,
    the order list, the low-stock table and the colour of a stock alert.
    The database reads and writes around them are inputs and outputs. */
module Stock {
  import opened Wrappers
  import opened Text
  import opened Decimal

  // ---------------------------------------------------------------------
  // `_upsert_stock`
  // ---------------------------------------------------------------------

  /** A row of the stock table; the quantity column may be NULL. */
  datatype StockRow = StockRow(category: string, qty: Option<int>, unit: string)

  /** `max(0, x)` */
  function Clamp(x: int): (r: nat)
    ensures r >= x
    ensures x >= 0 ==> r == x
  {
    if x < 0 then 0 else x
  }

  /** `(row[1] or 0)` */
  function StoredQty(r: StockRow): int
  {
    if r.qty.Some? then r.qty.value else 0
  }

  /** `_upsert_stock(item, category, delta, unit)`: without a database it
      reports failure and changes nothing; otherwise the item's quantity
      becomes `max(0, old + delta)`, or `max(0, delta)` for a new item, and
      no other item changes. */
  function UpsertStock(connected: bool, stock: map<string, StockRow>, item: string, category: string, delta: int, unit: string)
    : (r: (bool, map<string, StockRow>))
    ensures r.0 == connected
    ensures !connected ==> r.1 == stock
    ensures connected ==> r.1.Keys == stock.Keys + {item}
    ensures connected ==> r.1[item].qty.Some? && r.1[item].qty.value >= 0
    ensures connected ==> r.1[item].qty.value == Clamp((if item in stock then StoredQty(stock[item]) else 0) + delta)
    ensures forall k :: k in stock && k != item ==> r.1[k] == stock[k]
  {
    if !connected then (false, stock)
    else if item in stock then
      (true, stock[item := StockRow(category, Some(Clamp(StoredQty(stock[item]) + delta)), unit)])
    else
      (true, stock[item := StockRow(category, Some(Clamp(delta)), unit)])
  }

  /** Every stored quantity is a number of at least 0, or NULL. */
  predicate NonNegativeStock(stock: map<string, StockRow>)
  {
    forall k :: k in stock ==> stock[k].qty.None? || stock[k].qty.value >= 0
  }

  /** Updates keep every quantity non-negative. */
  lemma UpsertKeepsNonNegative(connected: bool, stock: map<string, StockRow>, item: string, category: string, delta: int, unit: string)
    requires NonNegativeStock(stock)
    ensures NonNegativeStock(UpsertStock(connected, stock, item, category, delta, unit).1)
  {
  }

  /** Two additions in a row come to one addition of their sum; a removal
      that would go below zero stops at zero instead. */
  lemma UpsertAdditionsCompose(stock: map<string, StockRow>, item: string, category: string, unit: string, d1: int, d2: int)
    requires d1 >= 0 && d2 >= 0
    requires item in stock ==> StoredQty(stock[item]) >= 0
    ensures var once := UpsertStock(true, stock, item, category, d1, unit).1;
            UpsertStock(true, once, item, category, d2, unit).1 == UpsertStock(true, stock, item, category, d1 + d2, unit).1
  {
  }

  /** Taking away more than is in stock leaves exactly zero. */
  lemma UpsertRemovalStopsAtZero(stock: map<string, StockRow>, item: string, category: string, unit: string, delta: int)
    requires item in stock && StoredQty(stock[item]) + delta <= 0
    ensures UpsertStock(true, stock, item, category, delta, unit).1[item].qty == Some(0)
  {
  }

  // ---------------------------------------------------------------------
  // `_save_stock_requests`
  // ---------------------------------------------------------------------

  /** A row written to the request table. */
  datatype RequestRow = RequestRow(item: string, qty: int, requestedBy: Option<int>, requestedAt: string)

  /** `[(name, q, user, now) for (name, q) in requests if q >= 0]` */
  function RequestRows(requests: seq<(string, int)>, user: Option<int>, now: string): (rows: seq<RequestRow>)
    ensures |rows| <= |requests|
    ensures forall i :: 0 <= i < |rows| ==> rows[i].qty >= 0 && rows[i].requestedBy == user && rows[i].requestedAt == now
    ensures forall name: string, q: int :: RequestRow(name, q, user, now) in rows <==> (name, q) in requests && q >= 0
    ensures |rows| == 0 <==> forall i :: 0 <= i < |requests| ==> requests[i].1 < 0
  {
    if |requests| == 0 then []
    else
      var rest := RequestRows(requests[1..], user, now);
      assert forall x :: x in requests <==> x == requests[0] || x in requests[1..] by {
        assert requests == [requests[0]] + requests[1..];
      }
      assert (forall i :: 0 <= i < |requests| ==> requests[i].1 < 0) <==>
             requests[0].1 < 0 && forall i :: 0 <= i < |requests[1..]| ==> requests[1..][i].1 < 0 by {
        if requests[0].1 < 0 && forall i :: 0 <= i < |requests[1..]| ==> requests[1..][i].1 < 0 {
          forall i | 1 <= i < |requests|
            ensures requests[i].1 < 0
          {
            assert requests[i] == requests[1..][i - 1];
          }
        }
      }
      var (name, q) := requests[0];
      if q >= 0 then [RequestRow(name, q, user, now)] + rest else rest
  }

  /** `_save_stock_requests(requests, user_id)`: whether anything was
      written, and the rows written. Negative quantities are dropped; zero
      quantities are kept. */
  function SaveStockRequests(connected: bool, requests: seq<(string, int)>, user: Option<int>, now: string)
    : (r: (bool, seq<RequestRow>))
    ensures r.0 <==> connected && exists i :: 0 <= i < |requests| && requests[i].1 >= 0
    ensures r.0 ==> r.1 == RequestRows(requests, user, now)
    ensures !r.0 ==> r.1 == []
  {
    if !connected || |requests| == 0 then (false, [])
    else
      var rows := RequestRows(requests, user, now);
      if |rows| == 0 then (false, []) else (true, rows)
  }

  // ---------------------------------------------------------------------
  // The order list of `_render_stock_order_list`
  // ---------------------------------------------------------------------

  /** The "Quantity" cell of the order editor: a whole number, or anything
      `int()` rejects. */
  datatype QuantityCell = Whole(n: int) | Unreadable

  /** `int(row["Quantity"])`, 0 when that raises. */
  function QuantityOf(c: QuantityCell): int
  {
    if c.Whole? then c.n else 0
  }

  /** `rows_to_send`: the items with a quantity above zero, in editor order. */
  function OrderList(rows: seq<(string, QuantityCell)>): (out: seq<(string, int)>)
    ensures |out| <= |rows|
    ensures forall i :: 0 <= i < |out| ==> out[i].1 > 0
    ensures forall x :: x in out <==> exists i :: 0 <= i < |rows| && rows[i].0 == x.0 && QuantityOf(rows[i].1) == x.1 && x.1 > 0
  {
    if |rows| == 0 then []
    else
      var rest := OrderList(rows[1..]);
      assert forall i :: 1 <= i < |rows| ==> rows[i] == rows[1..][i - 1];
      var q := QuantityOf(rows[0].1);
      if q > 0 then [(rows[0].0, q)] + rest else rest
  }

  /** The submit button is disabled exactly when the order list is empty. */
  function SubmitDisabled(rows: seq<(string, QuantityCell)>): (disabled: bool)
    ensures disabled <==> forall i :: 0 <= i < |rows| ==> QuantityOf(rows[i].1) <= 0
  {
    var out := OrderList(rows);
    assert |out| > 0 ==> exists i :: 0 <= i < |rows| && QuantityOf(rows[i].1) > 0 by {
      if |out| > 0 {
        assert out[0] in out;
      }
    }
    assert (exists i :: 0 <= i < |rows| && QuantityOf(rows[i].1) > 0) ==> |out| > 0 by {
      if exists i :: 0 <= i < |rows| && QuantityOf(rows[i].1) > 0 {
        var i :| 0 <= i < |rows| && QuantityOf(rows[i].1) > 0;
        assert (rows[i].0, QuantityOf(rows[i].1)) in out;
      }
    }
    |out| == 0
  }

  /** Every line of a submittable order passes the request filter: saving
      it writes every line. */
  lemma {:induction false} OrderListAllSaved(rows: seq<(string, QuantityCell)>, user: Option<int>, now: string)
    ensures |RequestRows(OrderList(rows), user, now)| == |OrderList(rows)|
  {
    if |rows| > 0 {
      OrderListAllSaved(rows[1..], user, now);
      var rest := OrderList(rows[1..]);
      var q := QuantityOf(rows[0].1);
      if q > 0 {
        assert ([(rows[0].0, q)] + rest)[1..] == rest;
      }
    }
  }

  // ---------------------------------------------------------------------
  // `_low_stock_alert_df`
  // ---------------------------------------------------------------------

  /** One line of the low-stock table. */
  datatype LowStockRow = LowStockRow(item: string, current: int, requested: int, received: int, total: int, low: bool)

  /** `m.get(name, 0)` */
  function Get(m: map<string, int>, k: string): int
  {
    if k in m then m[k] else 0
  }

  /** A line of the table from the three sums read from the database. */
  function LowStockLine(item: string, stock: map<string, int>, pending: map<string, int>, approved: map<string, int>, threshold: int): LowStockRow
  {
    var total := Get(stock, item) + Get(approved, item);
    LowStockRow(item, Get(stock, item), Get(pending, item), Get(approved, item), total, total <= threshold)
  }

  /** `_low_stock_alert_df(items, threshold)`: one line per listed item, in
      list order. Without a database every figure is 0 and no line is
      flagged; otherwise the total is the stock plus the approved
      requests (pending requests do not count) and a line is flagged
      exactly when its total is at most the threshold. */
  function LowStockTable(connected: bool, items: seq<string>, stock: map<string, int>, pending: map<string, int>,
                         approved: map<string, int>, threshold: int): (table: seq<LowStockRow>)
    ensures |table| == |items|
    ensures forall i :: 0 <= i < |items| ==> table[i].item == items[i]
    ensures !connected ==> forall i :: 0 <= i < |items| ==> table[i] == LowStockRow(items[i], 0, 0, 0, 0, false)
    ensures connected ==> forall i :: 0 <= i < |items| ==>
              && table[i].current == Get(stock, items[i])
              && table[i].requested == Get(pending, items[i])
              && table[i].received == Get(approved, items[i])
              && table[i].total == table[i].current + table[i].received
              && (table[i].low <==> table[i].total <= threshold)
  {
    if !connected then seq(|items|, i requires 0 <= i < |items| => LowStockRow(items[i], 0, 0, 0, 0, false))
    else seq(|items|, i requires 0 <= i < |items| => LowStockLine(items[i], stock, pending, approved, threshold))
  }

  /** Pending requests change the "Requested" column only, never a flag. */
  lemma PendingNeverFlags(items: seq<string>, stock: map<string, int>, p1: map<string, int>, p2: map<string, int>,
                          approved: map<string, int>, threshold: int, i: int)
    requires 0 <= i < |items|
    ensures LowStockTable(true, items, stock, p1, approved, threshold)[i].low
        == LowStockTable(true, items, stock, p2, approved, threshold)[i].low
  {
  }

  /** A higher threshold flags every line a lower one flags. */
  lemma ThresholdMonotone(items: seq<string>, stock: map<string, int>, pending: map<string, int>,
                          approved: map<string, int>, t1: int, t2: int, i: int)
    requires t1 <= t2 && 0 <= i < |items|
    requires LowStockTable(true, items, stock, pending, approved, t1)[i].low
    ensures LowStockTable(true, items, stock, pending, approved, t2)[i].low
  {
  }

  // ---------------------------------------------------------------------
  // `render_stock_alerts`
  // ---------------------------------------------------------------------

  /** The four message styles, from most to least urgent. */
  datatype AlertStyle = ErrorStyle | WarningStyle | InfoStyle | SuccessStyle

  function Urgency(a: AlertStyle): nat
  {
    match a
    case ErrorStyle => 3
    case WarningStyle => 2
    case InfoStyle => 1
    case SuccessStyle => 0
  }

  /** The first token made only of digits, as a number. */
  function FirstNumber(tokens: seq<string>): (n: Option<nat>)
    ensures n.None? <==> forall i :: 0 <= i < |tokens| ==> !IsDigitText(tokens[i])
    ensures n.Some? ==> exists i :: 0 <= i < |tokens| && IsDigitText(tokens[i]) && DigitsValue(tokens[i]) == n.value
                                     && forall j :: 0 <= j < i ==> !IsDigitText(tokens[j])
  {
    if |tokens| == 0 then None
    else if IsDigitText(tokens[0]) then Some(DigitsValue(tokens[0]))
    else
      var n := FirstNumber(tokens[1..]);
      assert forall i :: 1 <= i < |tokens| ==> tokens[i] == tokens[1..][i - 1];
      assert n.Some? ==> exists i :: 0 <= i < |tokens| && IsDigitText(tokens[i]) && DigitsValue(tokens[i]) == n.value
                                     && forall j :: 0 <= j < i ==> !IsDigitText(tokens[j]) by {
        if n.Some? {
          var i :| 0 <= i < |tokens[1..]| && IsDigitText(tokens[1..][i]) && DigitsValue(tokens[1..][i]) == n.value
                   && forall j :: 0 <= j < i ==> !IsDigitText(tokens[1..][j]);
          assert forall j :: 0 <= j < i + 1 ==> !IsDigitText(tokens[j]) by {
            forall j | 0 <= j < i + 1
              ensures !IsDigitText(tokens[j])
            {
              if j > 0 {
                assert tokens[j] == tokens[1..][j - 1];
              }
            }
          }
        }
      }
      n
  }

  /** The quantity an alert message mentions: its first all-digit word. */
  function AlertQuantity(msg: string): Option<nat>
  {
    FirstNumber(Tokens(msg))
  }

  /** The message says the item is out of stock. */
  predicate OutOfStock(msg: string)
  {
    Contains(msg, "Out of stock")
  }

  /** The style table: error when out of stock or for a quantity of 0,
      warning up to 2, info up to 5, success otherwise. */
  function StyleFor(outOfStock: bool, qty: Option<nat>): AlertStyle
  {
    if outOfStock || qty == Some(0) then ErrorStyle
    else if qty.Some? && qty.value <= 2 then WarningStyle
    else if qty.Some? && qty.value <= 5 then InfoStyle
    else SuccessStyle
  }

  /** A smaller quantity is styled at least as urgently. */
  lemma StyleForMonotone(n1: nat, n2: nat)
    requires n1 <= n2
    ensures Urgency(StyleFor(false, Some(n2))) <= Urgency(StyleFor(false, Some(n1)))
  {
  }

  /** The style of an alert message, from its "Out of stock" phrase and
      the quantity it mentions. */
  function AlertStyleOf(msg: string): (a: AlertStyle)
    ensures OutOfStock(msg) ==> a == ErrorStyle
    ensures a == SuccessStyle <==> !OutOfStock(msg) && (AlertQuantity(msg).None? || AlertQuantity(msg).value > 5)
  {
    var out, qty := OutOfStock(msg), AlertQuantity(msg);
    StyleForCases(out, qty);
    StyleFor(out, qty)
  }

  /** The style table's two ends: error whenever out of stock, success
      exactly when in stock with no quantity or one above 5. */
  lemma StyleForCases(outOfStock: bool, qty: Option<nat>)
    ensures outOfStock ==> StyleFor(outOfStock, qty) == ErrorStyle
    ensures StyleFor(outOfStock, qty) == SuccessStyle <==> !outOfStock && (qty.None? || qty.value > 5)
  {
  }

  /** Of two messages without "Out of stock", the one mentioning the
      smaller quantity is styled at least as urgently. */
  lemma FewerIsMoreUrgent(m1: string, m2: string)
    requires !OutOfStock(m1) && !OutOfStock(m2)
    requires AlertQuantity(m1).Some? && AlertQuantity(m2).Some?
    requires AlertQuantity(m1).value <= AlertQuantity(m2).value
    ensures Urgency(AlertStyleOf(m2)) <= Urgency(AlertStyleOf(m1))
  {
    StyleForMonotone(AlertQuantity(m1).value, AlertQuantity(m2).value);
  }
}
