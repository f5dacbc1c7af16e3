/** The failures the dashboard reports. All but the last are a `ValueError` the source raises;
    the last is the `TypeError` pandas raises when asked to rank a column holding text. Each is
    an error kind carrying the offending names or value, plus the message text. */
module Errors {
  import opened Strings

  datatype Error =
    /** Explicitly listed expense columns the table lacks, in the order they were listed. */
    | MissingExpenseColumns(names: seq<string>)
    /** Neither an expense column list nor a non-empty prefix was given. */
    | NoExpenseSelector
    /** No column name starts with the prefix. */
    | NoExpenseColumns(prefix: string)
    /** Required report columns the table lacks, in sorted order. */
    | MissingRequiredColumns(names: seq<string>)
    /** The order flag, as the caller wrote it, is neither `top_10` nor `bottom_10`. */
    | InvalidOrder(order: string)
    /** `added_amt` holds text, so the pandas ranking method named (`nlargest` or `nsmallest`)
        refuses it. */
    | UnrankableAmounts(rankMethod: string)

  /** The message text of each kind, as the source (or pandas, for the last) builds it. */
  function Message(e: Error): string {
    match e
    case MissingExpenseColumns(names) =>
      "Missing required expense columns: " + Join(names, ", ")
    case NoExpenseSelector =>
      "Either expense_columns must be provided or a valid expense_prefix must be set."
    case NoExpenseColumns(prefix) =>
      "No expense columns found with prefix '" + prefix + "'."
    case MissingRequiredColumns(names) =>
      "patient_discharge_df is missing required columns: " + Join(names, ", ")
    case InvalidOrder(order) =>
      "Invalid order '" + order + "'. Expected 'top_10' or 'bottom_10'."
    case UnrankableAmounts(rankMethod) =>
      "Column 'added_amt' has dtype object, cannot use method '" + rankMethod + "' with this dtype"
  }

  lemma ContainsWhole(s: string)
    ensures Contains(s, s)
  {
    assert OccursAt(s, s, 0);
  }

  /** Every message names what went wrong: each missing column, the prefix, the order value,
      or the ranking method. */
  lemma MessageNamesOffender(e: Error)
    ensures e.MissingExpenseColumns? ==> forall n :: n in e.names ==> Contains(Message(e), n)
    ensures e.MissingRequiredColumns? ==> forall n :: n in e.names ==> Contains(Message(e), n)
    ensures e.NoExpenseColumns? ==> Contains(Message(e), e.prefix)
    ensures e.InvalidOrder? ==> Contains(Message(e), e.order)
    ensures e.UnrankableAmounts? ==> Contains(Message(e), e.rankMethod)
  {
    match e
    case MissingExpenseColumns(names) =>
      forall n | n in names ensures Contains(Message(e), n) {
        var i :| 0 <= i < |names| && names[i] == n;
        JoinContainsEach(names, ", ", i);
        ContainsInContext(n, Join(names, ", "), "Missing required expense columns: ", "");
        assert Message(e) == "Missing required expense columns: " + Join(names, ", ") + "";
      }
    case MissingRequiredColumns(names) =>
      forall n | n in names ensures Contains(Message(e), n) {
        var i :| 0 <= i < |names| && names[i] == n;
        JoinContainsEach(names, ", ", i);
        ContainsInContext(n, Join(names, ", "), "patient_discharge_df is missing required columns: ", "");
        assert Message(e) == "patient_discharge_df is missing required columns: " + Join(names, ", ") + "";
      }
    case NoExpenseSelector =>
    case NoExpenseColumns(prefix) =>
      ContainsWhole(prefix);
      ContainsInContext(prefix, prefix, "No expense columns found with prefix '", "'.");
    case InvalidOrder(order) =>
      ContainsWhole(order);
      ContainsInContext(order, order, "Invalid order '", "'. Expected 'top_10' or 'bottom_10'.");
    case UnrankableAmounts(rankMethod) =>
      ContainsWhole(rankMethod);
      ContainsInContext(rankMethod, rankMethod, "Column 'added_amt' has dtype object, cannot use method '",
                        "' with this dtype");
  }
}
