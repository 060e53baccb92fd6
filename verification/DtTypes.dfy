// The public types of dt_types.h.
module DtTypes {
  import opened Machine

  const NANOS: int := 1000000000

  datatype Status = DtOk | DtInvalidArgument | DtTimezoneNotFound | DtNoMoreItems | DtOverflow

  /** dt_timestamp_t */
  datatype Timestamp = Timestamp(second: Long, nano: ULong)

  /** dt_interval_t */
  datatype Interval = Interval(seconds: ULong, nanos: ULong)

  /** dt_offset_t */
  datatype Offset = Offset(duration: Interval, isForward: bool)

  type UShort = x: int | 0 <= x < 0x1_0000

  /** dt_representation_t */
  datatype Representation = Representation(year: Int, month: UShort, day: UShort, hour: UShort,
                                           minute: UShort, second: UShort, nano: ULong)
}
