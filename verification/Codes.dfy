/** The numbers a message is written in. Each conversion is total both ways: a
    value with no name is carried as itself. */
module Codes {
  import opened Octets

  datatype OpCode = OpQuery | IQuery | Status | Notify | Update | OtherOp(value: byte)

  function OpFrom(value: byte): OpCode {
    match value % 16
    case 0 => OpQuery
    case 1 => IQuery
    case 2 => Status
    case 4 => Notify
    case 5 => Update
    case other => OtherOp(other)
  }

  function OpTo(op: OpCode): byte {
    match op
    case OpQuery => 0
    case IQuery => 1
    case Status => 2
    case Notify => 4
    case Update => 5
    case OtherOp(value) => value
  }

  datatype QueryClass = ClassIN | ClassCH | ClassHS | ClassNone | ClassAny | OtherClass(value: u16)

  function ClassFrom(value: u16): QueryClass {
    match value
    case 1 => ClassIN
    case 3 => ClassCH
    case 4 => ClassHS
    case 254 => ClassNone
    case 255 => ClassAny
    case other => OtherClass(other)
  }

  function ClassTo(class_: QueryClass): u16 {
    match class_
    case ClassIN => 1
    case ClassCH => 3
    case ClassHS => 4
    case ClassNone => 254
    case ClassAny => 255
    case OtherClass(value) => value
  }

  datatype ResponseCode =
    | NoError | FormatError | ServerFailure | NoSuchDomain | NotImplemented | Refused
    | DomainExists | RecordSetExists | NoSuchRecordSet | NotAuthorized | NameNotInZone
    | DsoTypeNotImplemented
    | BadOptVersion | BadKey | BadTime | BadTkeyMode | BadName | BadAlgorithm | BadTruncation | BadCookie
    | OtherCode(value: u16)

  function CodeFrom(value: u16): ResponseCode {
    match value
    case 0 => NoError
    case 1 => FormatError
    case 2 => ServerFailure
    case 3 => NoSuchDomain
    case 4 => NotImplemented
    case 5 => Refused
    case 6 => DomainExists
    case 7 => RecordSetExists
    case 8 => NoSuchRecordSet
    case 9 => NotAuthorized
    case 10 => NameNotInZone
    case 11 => DsoTypeNotImplemented
    case 16 => BadOptVersion
    case 17 => BadKey
    case 18 => BadTime
    case 19 => BadTkeyMode
    case 20 => BadName
    case 21 => BadAlgorithm
    case 22 => BadTruncation
    case 23 => BadCookie
    case other => OtherCode(other)
  }

  function CodeTo(code: ResponseCode): u16 {
    match code
    case NoError => 0
    case FormatError => 1
    case ServerFailure => 2
    case NoSuchDomain => 3
    case NotImplemented => 4
    case Refused => 5
    case DomainExists => 6
    case RecordSetExists => 7
    case NoSuchRecordSet => 8
    case NotAuthorized => 9
    case NameNotInZone => 10
    case DsoTypeNotImplemented => 11
    case BadOptVersion => 16
    case BadKey => 17
    case BadTime => 18
    case BadTkeyMode => 19
    case BadName => 20
    case BadAlgorithm => 21
    case BadTruncation => 22
    case BadCookie => 23
    case OtherCode(value) => value
  }

  /** Values the conversions themselves produce: no named number hides in `Other`. */
  predicate Named(op: OpCode, code: ResponseCode) {
    OpFrom(OpTo(op)) == op && CodeFrom(CodeTo(code)) == code
  }

  /** `Ttl::from_wire` on the field's 32 bits: a set top bit reads as zero
      (RFC 2181 section 8). */
  function TtlFrom(bits: u32): u32 {
    if bits >= TWO_31 then 0 else bits
  }
}
