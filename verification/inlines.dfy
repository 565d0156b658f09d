/** The two kinds of input record, and the one way the reporting code fails. */
module Inlines {

  /** One compiler inlining decision. `line` keeps the raw CSV fields so that
      the record can be written back out unchanged. */
  datatype InlineRecord = InlineRecord(
    callerPackage: string,
    callerFunction: string,
    callerLine: int,
    callerColumn: int,
    inlinePackage: string,
    inlineFunction: string,
    inlineSize: int,
    line: seq<string>)

  /** One randomized build-and-benchmark run. `seed` and `threshold` decide
      which inlining sites were active; `noise` is -1 when the field is absent
      and is never read. */
  datatype BenchmarkTrial = BenchmarkTrial(seed: int, threshold: int, time: real, noise: int)

  /** Go's run-time panic on a slice index outside `[0, length)`. */
  datatype Error = IndexOutOfRange(index: int, length: int)

  datatype Result<T> = Ok(value: T) | Err(error: Error)

  /** The integer minimum the program takes from its math helper package. */
  function Min(a: int, b: int): int
  {
    if a < b then a else b
  }
}
