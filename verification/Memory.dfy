/** Bytes and pages. */
module Memory {
  const PAGE_SIZE := 4096

  newtype byte = x: int | 0 <= x < 256
  type Data = s: seq<byte> | |s| == PAGE_SIZE witness seq(PAGE_SIZE, _ => 0)

  datatype Option<T> = None | Some(value: T)
}
