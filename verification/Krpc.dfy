/** The error-or-value result that stands for Go's pair of a value and an error. */
module Results {
  datatype Result<+T> = Ok(value: T) | Err {
    predicate IsFailure() {
      Err?
    }

    function PropagateFailure<U>(): (r: Result<U>)
      requires Err?
    {
      Err
    }

    function Extract(): (v: T)
      requires Ok?
    {
      value
    }
  }
}

/** Decoded bencode values and the typed getters over dictionaries (krpc/krpc.go). */
module Krpc {
  import opened Bytes
  import opened Results

  datatype Value = Str(bytes: seq<Byte>) | Int(n: int) | List(vs: seq<Value>) | Dict(fields: Fields)

  type Fields = map<string, Value>

  function GetString(data: Fields, key: string): (r: Result<seq<Byte>>) {
    if key in data && data[key].Str? then Ok(data[key].bytes) else Err
  }

  function GetInt(data: Fields, key: string): (r: Result<int>) {
    if key in data && data[key].Int? then Ok(data[key].n) else Err
  }

  function GetMap(data: Fields, key: string): (r: Result<Fields>) {
    if key in data && data[key].Dict? then Ok(data[key].fields) else Err
  }

  function GetList(data: Fields, key: string): (r: Result<seq<Value>>) {
    if key in data && data[key].List? then Ok(data[key].vs) else Err
  }

  function MakeResponse(transaction: seq<Byte>, data: Fields): (r: Fields) {
    map["t" := Str(transaction), "y" := Str([0x72]), "r" := Dict(data)]
  }

  function MakeQuery(transaction: seq<Byte>, query: seq<Byte>, data: Fields): (r: Fields) {
    map["t" := Str(transaction), "y" := Str([0x71]), "q" := Str(query), "a" := Dict(data)]
  }

  /** What the bencode decoder makes of a payload: a dictionary and the index after it. */
  datatype Decoded = BadDict | Decoded(dict: Fields, end: int)

  type Decoder = seq<Byte> -> Decoded
}
