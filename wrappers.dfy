/** Failure-carrying wrappers shared by every module of the model. */
module Wrappers {

  datatype Option<T> = None | Some(value: T)

  /** The exceptions the modelled Python code can raise. */
  datatype Error =
    | FileNotFoundError                 // getsize/open on a missing log file
    | KeyError(key: string)             // a dict lookup of an absent key
    | DateValueError(text: string)      // datetime.strptime rejected the text
    | SeekValueError                    // f.seek() with a negative position
    | GroupIndexError                   // match.group(i) with no such group
    | WhitespaceIndexError              // remove_whitespaces on a blank string
    | AppendAttributeError(key: string) // .append on a value that is not a list
    | ColumnIndexError                  // a row wider than the table's column list

  datatype Result<T> = Ok(value: T) | Err(error: Error)

  /** A JSON value, as profiles and configuration hold them. */
  datatype Json = JNull | JBool(b: bool) | JNum(n: int) | JStr(s: string) | JList(items: seq<Json>) | JObject(fields: map<string, Json>)
}
