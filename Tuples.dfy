/**
 * The value vocabulary the storage core shares: field types and values, page and record
 * identifiers, and tuples. These are the Java classes `Type`, `Field`, `HeapPageId`,
 * `RecordId` and `Tuple`, reduced to the parts the modelled code reads.
 */
module Tuples {
  import opened Common

  /** Characters a string field holds, as fixed by the `Type` enum. */
  const STRING_LEN: nat := 128

  /** The `Type` enum. */
  datatype Type = IntType | StringType {
    /** Bytes a field of this type occupies: an int, or a length word and `STRING_LEN` bytes. */
    function Len(): (n: nat)
      ensures n > 0
      ensures this == IntType ==> n == 4
      ensures this == StringType ==> n == STRING_LEN + 4
    {
      match this
      case IntType => 4
      case StringType => STRING_LEN + 4
    }

    /** The enum constant's name, which is what Java prints for it. */
    function Name(): string
    {
      match this
      case IntType => "INT_TYPE"
      case StringType => "STRING_TYPE"
    }
  }

  datatype Field = IntField(intValue: Int32) | StringField(stringValue: string) {
    function GetType(): Type
    {
      match this
      case IntField(_) => IntType
      case StringField(_) => StringType
    }
  }

  /** A page of a table's file: the table identifier and the zero-based page number. */
  datatype PageId = PageId(tableId: int, pageNumber: int)

  /** Where a stored tuple lives: its page and its slot on that page. */
  datatype RecordId = RecordId(pageId: PageId, tupleNumber: int)

  /** A tuple's field values and, once it is stored, its record id (null before). */
  datatype Tuple = Tuple(fields: seq<Field>, recordId: Option<RecordId>)
}
