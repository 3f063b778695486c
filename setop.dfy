/** The one type the kc skippers share with the external set-operation engine
    (package github.com/zond/setop): a key together with the values merged for it. */
module SetOp {
  import opened KeyCodec

  datatype SetOpResult = SetOpResult(key: Bytes, values: seq<Bytes>)
}
