/** Request parameters and option hashes as the Ruby side sees them: string keys
    (symbolised names are the same strings) mapped to scalar, array or nested values. */
module RubyValues {

  datatype Value =
    | Str(s: string)
    | Num(n: int)
    | Items(items: seq<Value>)
    | Nested(fields: map<string, Value>)

  type Params = map<string, Value>
}
