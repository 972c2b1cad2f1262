/** The conditions of a policy definition, evaluated on an action: engine.go's evaluateCondition. */
module Conditions {
  import opened Decimal
  import opened Evm

  /** What an interface value holds: decoded JSON, or the chain id of an action, an int64. */
  datatype Value =
    | Nil
    | Bool(truth: bool)
    | Number(number: real)
    | Integer(integer: Int64)
    | Text(text: string)
    | Array(items: seq<Value>)
    | Object(fields: map<string, Value>)
  {
    /** JSON numbers decode to floats, so a decoded value holds no int64, nor does a list of them. */
    predicate Decoded() {
      !Integer? && (Array? ==> forall i :: 0 <= i < |items| ==> !items[i].Integer?)
    }
  }

  datatype Condition = Condition(field: string, operator: string, value: Value)

  /** The action an agent asks about; an empty text or chain 0 is an absent field. */
  datatype Action = Action(kind: string, token: string, protocol: string, amount: string, chain: Int64,
                           to: string, data: map<string, Value>)

  const TEXT_FIELDS: set<string> := {"type", "token", "protocol", "amount", "to"}

  function FieldOf(action: Action, field: string): Value {
    match field
    case "type" => Text(action.kind)
    case "token" => Text(action.token)
    case "protocol" => Text(action.protocol)
    case "amount" => Text(action.amount)
    case "chain" => Integer(action.chain)
    case "to" => Text(action.to)
    case _ => if field in action.data then action.data[field] else Nil
  }

  /** Comparing two slices or two maps panics. */
  function Equal(a: Value, b: Value): Option<bool> {
    if (a.Array? && b.Array?) || (a.Object? && b.Object?) then None else Some(a == b)
  }

  function Not(outcome: Option<bool>): Option<bool> {
    match outcome
    case None => None
    case Some(b) => Some(!b)
  }

  /** A float truncated to int64. */
  function Truncate(x: real): Int64 {
    var n := if x >= 0.0 then x.Floor else -(-x).Floor;
    if MIN_INT64 <= n <= MAX_INT64 then n else MIN_INT64
  }

  function ToBigInt(v: Value): Option<int> {
    match v
    case Text(text) => ParseInt(text)
    case Integer(n) => Some(n)
    case Number(x) => Some(Truncate(x))
    case _ => None
  }

  /** The sign of the difference, or 0 when either side is not a number. */
  function Compare(a: Value, b: Value): int {
    match (ToBigInt(a), ToBigInt(b))
    case (Some(m), Some(n)) => if m < n then -1 else if m > n then 1 else 0
    case _ => 0
  }

  /** Whether some item equals x, compared in order until one does. */
  function Among(x: Value, items: seq<Value>): Option<bool> {
    if items == [] then Some(false)
    else
      match Equal(x, items[0])
      case None => None
      case Some(same) => if same then Some(true) else Among(x, items[1..])
  }

  predicate Contains(s: string, part: string) {
    exists i :: 0 <= i <= |s| && part <= s[i..]
  }

  /** None when a comparison panics. */
  function Evaluate(c: Condition, action: Action): Option<bool> {
    var field := FieldOf(action, c.field);
    match c.operator
    case "eq" => Equal(field, c.value)
    case "ne" => Not(Equal(field, c.value))
    case "gt" => Some(Compare(field, c.value) > 0)
    case "gte" => Some(Compare(field, c.value) >= 0)
    case "lt" => Some(Compare(field, c.value) < 0)
    case "lte" => Some(Compare(field, c.value) <= 0)
    case "in" => if c.value.Array? then Among(field, c.value.items) else Some(false)
    case "not_in" => if c.value.Array? then Not(Among(field, c.value.items)) else Some(true)
    case "contains" => Some(field.Text? && c.value.Text? && Contains(field.text, c.value.text))
    case _ => Some(false)
  }

  predicate Holds(c: Condition, action: Action) {
    Evaluate(c, action) == Some(true)
  }

  method IsAmong(x: Value, items: seq<Value>) returns (found: Option<bool>)
    ensures found == Among(x, items)
  {
    for i := 0 to |items|
      invariant Among(x, items) == Among(x, items[i..])
    {
      assert items[i..][1..] == items[i + 1..];
      var same := Equal(x, items[i]);
      if same != Some(false) { return same; }
    }
    return Some(false);
  }

  method EvaluateCondition(c: Condition, action: Action) returns (outcome: Option<bool>)
    ensures outcome == Evaluate(c, action)
  {
    var field := FieldOf(action, c.field);
    match c.operator
    case "eq" => outcome := Equal(field, c.value);
    case "ne" => outcome := Not(Equal(field, c.value));
    case "gt" => outcome := Some(Compare(field, c.value) > 0);
    case "gte" => outcome := Some(Compare(field, c.value) >= 0);
    case "lt" => outcome := Some(Compare(field, c.value) < 0);
    case "lte" => outcome := Some(Compare(field, c.value) <= 0);
    case "in" =>
      outcome := Some(false);
      if c.value.Array? { outcome := IsAmong(field, c.value.items); }
    case "not_in" =>
      outcome := Some(true);
      if c.value.Array? {
        outcome := IsAmong(field, c.value.items);
        outcome := Not(outcome);
      }
    case "contains" => outcome := Some(field.Text? && c.value.Text? && Contains(field.text, c.value.text));
    case _ => outcome := Some(false);
  }

  // ----- what a condition that holds means -----

  predicate Comparable(v: Value) {
    !v.Array? && !v.Object?
  }

  lemma {:induction false} AmongFinds(x: Value, items: seq<Value>)
    ensures Among(x, items) == Some(true) ==> Comparable(x) && exists i :: 0 <= i < |items| && items[i] == x
    ensures Comparable(x) ==> Among(x, items) == Some(x in items)
  {
    if items != [] {
      AmongFinds(x, items[1..]);
    }
  }

  lemma ContainsExactly(s: string, part: string)
    ensures Contains(s, part) <==> exists a, b :: s == a + part + b
  {
    if i :| 0 <= i <= |s| && part <= s[i..] {
      assert s == s[..i] + part + s[i + |part|..];
    }
    if a, b :| s == a + part + b {
      assert part <= s[|a|..];
    }
  }

  /** Two slices or two maps. */
  predicate Incomparable(x: Value, v: Value) {
    (x.Array? && v.Array?) || (x.Object? && v.Object?)
  }

  lemma {:induction false} AmongLacks(x: Value, items: seq<Value>)
    requires !Comparable(x)
    ensures Among(x, items) == if exists i :: 0 <= i < |items| && Equal(x, items[i]) == None then None else Some(false)
  {
    if items != [] {
      AmongLacks(x, items[1..]);
      assert forall i :: 0 < i < |items| ==> items[i] == items[1..][i - 1];
    }
  }

  lemma InExactly(x: Value, items: seq<Value>)
    ensures Among(x, items) == Some(true) <==> Comparable(x) && x in items
    ensures Among(x, items) == Some(false) <==> x !in items && forall y :: y in items ==> !Incomparable(x, y)
  {
    if Comparable(x) {
      AmongFinds(x, items);
    } else {
      AmongLacks(x, items);
      assert x in items ==> Incomparable(x, x);
      forall y | y in items && Incomparable(x, y)
        ensures Among(x, items) == None
      {
        var i :| 0 <= i < |items| && items[i] == y;
        assert Equal(x, items[i]) == None;
      }
      if i :| 0 <= i < |items| && Equal(x, items[i]) == None {
        assert items[i] in items && Incomparable(x, items[i]);
      }
    }
  }

  /** Each operator in terms of equality, order and membership. A value that is no number compares as equal
      to everything, so it meets "gte" and "lte" and neither "gt" nor "lt". */
  ghost predicate Means(operator: string, x: Value, v: Value) {
    var m, n := ToBigInt(x), ToBigInt(v);
    match operator
    case "eq" => x == v && Comparable(x)
    case "ne" => x != v && !Incomparable(x, v)
    case "gt" => m.Some? && n.Some? && m.value > n.value
    case "lt" => m.Some? && n.Some? && m.value < n.value
    case "gte" => m == None || n == None || m.value >= n.value
    case "lte" => m == None || n == None || m.value <= n.value
    case "in" => v.Array? && Comparable(x) && x in v.items
    case "not_in" => v.Array? ==> x !in v.items && forall y :: y in v.items ==> !Incomparable(x, y)
    case "contains" => x.Text? && v.Text? && exists a, b :: x.text == a + v.text + b
    case _ => false
  }

  lemma HoldsExactly(c: Condition, action: Action)
    ensures Holds(c, action) <==> Means(c.operator, FieldOf(action, c.field), c.value)
  {
    var x, v := FieldOf(action, c.field), c.value;
    match c.operator
    case "in" => if v.Array? { InExactly(x, v.items); }
    case "not_in" => if v.Array? { InExactly(x, v.items); }
    case "contains" => if x.Text? && v.Text? { ContainsExactly(x.text, v.text); }
    case _ =>
  }

  /** A float is cut off toward zero, if what is left fits. */
  lemma TruncateTowardZero(x: real)
    requires -9223372036854775808.0 <= x < 9223372036854775808.0
    ensures x >= 0.0 ==> (0 <= Truncate(x) && Truncate(x) as real <= x < (Truncate(x) + 1) as real)
    ensures x <= 0.0 ==> (Truncate(x) <= 0 && (Truncate(x) - 1) as real < x <= Truncate(x) as real)
  {
  }

  // ----- which conditions can hold -----

  /** Some action makes the condition hold: by the operator, the field and the value alone. */
  predicate CanHold(c: Condition) {
    var n := ToBigInt(c.value);
    match c.operator
    case "eq" =>
      c.field != "chain" && if c.field in TEXT_FIELDS then c.value.Text? else Comparable(c.value)
    case "in" =>
      c.field != "chain" && c.value.Array?
      && exists i :: 0 <= i < |c.value.items|
           && if c.field in TEXT_FIELDS then c.value.items[i].Text? else Comparable(c.value.items[i])
    case "contains" => c.field != "chain" && c.value.Text?
    case "gt" => n.Some? && (c.field == "chain" ==> n.value < MAX_INT64)
    case "lt" => n.Some? && (c.field == "chain" ==> n.value > MIN_INT64)
    case "gte" => n.Some? && c.field == "chain" ==> n.value <= MAX_INT64
    case "lte" => n.Some? && c.field == "chain" ==> n.value >= MIN_INT64
    case "ne" => true
    case "not_in" => true
    case _ => false
  }

  lemma HoldingCanHold(c: Condition, action: Action)
    requires c.value.Decoded() && Holds(c, action)
    ensures CanHold(c)
  {
    if c.operator == "in" && c.value.Array? {
      AmongFinds(FieldOf(action, c.field), c.value.items);
    }
  }

  /** A decimal text above and one below any integer. */
  lemma TextsAround(n: int) returns (above: string, below: string)
    ensures ParseInt(above).Some? && ParseInt(above).value > n
    ensures ParseInt(below).Some? && ParseInt(below).value < n
  {
    var m := if n >= 0 then n + 1 else 1 - n;
    PrintParses(m);
    above, below := Print(m), "-" + Print(m);
    assert below[1..] == above;
  }

  /** A text longer than every text of a list. */
  lemma {:induction false} UnlistedText(items: seq<Value>) returns (text: string)
    ensures forall i :: 0 <= i < |items| && items[i].Text? ==> |items[i].text| < |text|
  {
    if items == [] {
      text := "";
    } else {
      text := UnlistedText(items[1..]);
      if items[0].Text? && |items[0].text| >= |text| {
        text := items[0].text + "0";
      }
      assert forall i :: 0 < i < |items| ==> items[i] == items[1..][i - 1];
    }
  }

  /** An action whose field is this value; the named fields but the chain hold texts. */
  function ActionWith(field: string, v: Value): Action {
    var blank := Action("", "", "", "", if field == "chain" && v.Integer? then v.integer else 0, "", map[field := v]);
    if !v.Text? then blank
    else
      match field
      case "type" => blank.(kind := v.text)
      case "token" => blank.(token := v.text)
      case "protocol" => blank.(protocol := v.text)
      case "amount" => blank.(amount := v.text)
      case "to" => blank.(to := v.text)
      case _ => blank
  }

  lemma ActionWithField(field: string, v: Value)
    requires if field == "chain" then v.Integer? else field in TEXT_FIELDS ==> v.Text?
    ensures FieldOf(ActionWith(field, v), field) == v
  {
  }

  /** A value of the field that makes the condition hold. */
  lemma SomeValue(c: Condition) returns (v: Value)
    requires c.value.Decoded() && CanHold(c)
    ensures if c.field == "chain" then v.Integer? else c.field in TEXT_FIELDS ==> v.Text?
    ensures forall action :: FieldOf(action, c.field) == v ==> Holds(c, action)
  {
    var n := ToBigInt(c.value);
    var above, below := TextsAround(if n.Some? then n.value else 0);
    var items := if c.value.Array? then c.value.items else [c.value];
    if c.field == "chain" {
      v := Integer(if c.operator in {"gt", "gte"} then MAX_INT64
                   else if c.operator in {"lt", "lte"} then MIN_INT64 else 0);
      AmongFinds(v, items);
    } else if c.operator in {"gt", "gte"} {
      v := Text(above);
    } else if c.operator in {"lt", "lte"} {
      v := Text(below);
    } else if c.operator in {"ne", "not_in"} {
      var text := UnlistedText(items);
      v := Text(text + "0");
      AmongFinds(v, items);
    } else if c.operator == "in" {
      var i :| 0 <= i < |items| && if c.field in TEXT_FIELDS then items[i].Text? else Comparable(items[i]);
      v := items[i];
      AmongFinds(v, items);
    } else {
      v := c.value;
      if c.operator == "contains" {
        assert v.text <= v.text[0..];
      }
    }
  }

  /** A condition from a decoded definition holds on some action exactly when its operator is one that is
      evaluated and its value fits the field. */
  lemma CanHoldExactly(c: Condition)
    requires c.value.Decoded()
    ensures (exists action :: Holds(c, action)) <==> CanHold(c)
  {
    if CanHold(c) {
      var v := SomeValue(c);
      ActionWithField(c.field, v);
      assert Holds(c, ActionWith(c.field, v));
    }
    if action :| Holds(c, action) {
      HoldingCanHold(c, action);
    }
  }
}
