/** The exceptions the engine raises, by kind. */
module Errors {

  datatype Error =
    | MissingField(name: string)          // IOException "Missing required field: <name>"
    | EmptyBucket                         // IOException "Tried to read empty bucket"
    | EndOfFile                           // EOFException: a read ran past the end of the file
    | ClassCast                           // ClassCastException: a value of the wrong Java type
    | NegativeArraySize                   // NegativeArraySizeException: `new byte[n]` with n < 0
    | NegativeSeek                        // IOException from `RandomAccessFile.seek` with a negative offset
    | DivisionByZero                      // ArithmeticException: file length divided by a zero record size
    | BucketExists(name: string)          // IOException "Bucket '<name>' already exists"
    | UnsupportedOperation(op: string)    // IllegalArgumentException "Unsupported operation: <op>"
    | StartAfterEnd                       // IllegalArgumentException "Start time must be ..."
    | UnknownField(name: string)          // IllegalArgumentException "Field '<name>' does not exist ..."
    | NotNumeric(name: string)            // IllegalArgumentException "Cannot calculate ... of field type ..."
    | NoRecords(op: string)               // IOException "No records to calculate <op> on"
}
