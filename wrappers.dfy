/** Option stands for a C pointer that may be NULL; CString for the text a `char *` points to. */
module Wrappers {
  datatype Option<+T> = None | Some(value: T)

  /** A C string holds no NUL character: the first one would end it. */
  predicate CString(s: string)
  {
    forall i :: 0 <= i < |s| ==> s[i] != '\0'
  }
}
