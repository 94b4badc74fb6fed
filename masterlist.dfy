/**
 * The masterlist CSV ledger as a file that the script creates and appends
 * to: whether it exists, the columns of its header line, and its data rows.
 */
module Masterlist {
  import opened Terms

  /** The columns of the header line written when the ledger is created. */
  const Header: seq<string> := ["Term", "ISBN"]

  class Ledger {
    var present: bool
    var header: seq<string>
    var rows: seq<Row>

    /** A missing file has neither a header nor rows. */
    predicate Valid()
      reads this
    {
      !present ==> header == [] && rows == []
    }

    /** No ledger file on disk. */
    constructor Missing()
      ensures Valid() && !present
    {
      present, header, rows := false, [], [];
    }

    /** A ledger file found on disk with the given header and rows. */
    constructor Existing(header: seq<string>, rows: seq<Row>)
      ensures Valid() && present && this.header == header && this.rows == rows
    {
      present, this.header, this.rows := true, header, rows;
    }

    /** A missing ledger is created holding only the header; an existing one is left alone. */
    method EnsureExists()
      requires Valid()
      modifies this
      ensures Valid() && present
      ensures header == if old(present) then old(header) else Header
      ensures rows == old(rows)
    {
      if !present {
        present, header, rows := true, Header, [];
      }
    }

    /** Appending rows without a header: earlier rows stay as they were, the new ones follow. */
    method Append(added: seq<Row>)
      requires Valid()
      modifies this
      ensures Valid() && present
      ensures header == old(header)
      ensures rows == old(rows) + added
    {
      present := true;
      rows := rows + added;
    }
  }
}
