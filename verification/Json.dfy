/** JSON documents as trees. An object keeps its members in order and may repeat a name; a number keeps its literal. */
module Json {

  datatype Json =
    | Null
    | Bool(b: bool)
    | Num(lit: string)
    | Str(s: string)
    | Arr(elems: seq<Json>)
    | Obj(members: seq<Member>)

  datatype Member = Member(name: string, value: Json)
}
