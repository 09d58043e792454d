/** An optional value: an empty form field, or a parse that found nothing. */
module Options {

  datatype Option<+T> = None | Some(value: T)

}
