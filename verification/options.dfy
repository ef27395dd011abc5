/** A value that may be absent: an output left unwritten, or a scan that found nothing. */
module Options {

  datatype Option<+T> = None | Some(value: T)
}
