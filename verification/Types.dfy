/** The D-Bus type codes and the tables over them (types.h, types.cpp). */
module Types {
  import opened Bytes

  datatype DataType =
    | BYTE | BOOLEAN | INT16 | UINT16 | INT32 | UINT32 | INT64 | UINT64 | DOUBLE
    | STRING | OBJECT_PATH | SIGNATURE | ARRAY | VARIANT | STRUCT | DICT_ENTRY | UNIX_FD
    | INVALID

  datatype ContainerType = NoContainer | STRUCT_C | ARRAY_C | VARIANT_C | DICT_ENTRY_C

  function CharToType(c: char): DataType {
    match c
    case 'y' => BYTE
    case 'b' => BOOLEAN
    case 'n' => INT16
    case 'q' => UINT16
    case 'i' => INT32
    case 'u' => UINT32
    case 'x' => INT64
    case 't' => UINT64
    case 'd' => DOUBLE
    case 's' => STRING
    case 'o' => OBJECT_PATH
    case 'g' => SIGNATURE
    case 'a' => ARRAY
    case 'r' => STRUCT
    case '(' => STRUCT
    case ')' => STRUCT
    case 'v' => VARIANT
    case 'e' => DICT_ENTRY
    case '{' => DICT_ENTRY
    case '}' => DICT_ENTRY
    case 'h' => UNIX_FD
    case _ => INVALID
  }

  function CharToContainer(c: char): ContainerType {
    match c
    case 'a' => ARRAY_C
    case 'e' => DICT_ENTRY_C
    case '{' => DICT_ENTRY_C
    case '(' => STRUCT_C
    case 'r' => STRUCT_C
    case 'v' => VARIANT_C
    case _ => NoContainer
  }

  predicate IsEnding(c: char) { c == '}' || c == ')' }

  /** `TypeInfo::is_basic`: note that it leaves out booleans and doubles. */
  predicate IsBasic(t: DataType) {
    match t
    case BYTE => true
    case INT16 => true
    case UINT16 => true
    case INT32 => true
    case UINT32 => true
    case INT64 => true
    case UINT64 => true
    case STRING => true
    case OBJECT_PATH => true
    case SIGNATURE => true
    case UNIX_FD => true
    case _ => false
  }

  predicate IsContainer(t: DataType) {
    t.ARRAY? || t.STRUCT? || t.VARIANT? || t.DICT_ENTRY?
  }

  /** `TypeInfo::to_dbus_char`; `None` stands for the NUL character, which the
      printers skip. */
  function TypeToChar(t: DataType): Option<char> {
    match t
    case BYTE => Some('y')
    case BOOLEAN => Some('b')
    case INT16 => Some('n')
    case UINT16 => Some('q')
    case INT32 => Some('i')
    case UINT32 => Some('u')
    case INT64 => Some('x')
    case UINT64 => Some('t')
    case DOUBLE => Some('d')
    case STRING => Some('s')
    case OBJECT_PATH => Some('o')
    case SIGNATURE => Some('g')
    case ARRAY => Some('a')
    case VARIANT => Some('v')
    case UNIX_FD => Some('h')
    case _ => None
  }

  /** `TypeInfo::alignment`, on the types it gives a nonzero alignment. */
  function AlignmentOf(t: DataType): Alignment
    requires t != INVALID
  {
    match t
    case BYTE => 1
    case SIGNATURE => 1
    case VARIANT => 1
    case INT16 => 2
    case UINT16 => 2
    case BOOLEAN => 4
    case INT32 => 4
    case UINT32 => 4
    case STRING => 4
    case OBJECT_PATH => 4
    case ARRAY => 4
    case UNIX_FD => 4
    case DOUBLE => 8
    case INT64 => 8
    case UINT64 => 8
    case STRUCT => 8
    case DICT_ENTRY => 8
  }

  /** The alignments of the D-Bus specification, by type code; brackets of either kind, and `r` and
      `e`, stand for the containers. */
  lemma CodeAlignments(c: char)
    ensures c in "ygv" ==> CharToType(c) != INVALID && AlignmentOf(CharToType(c)) == 1
    ensures c in "nq" ==> CharToType(c) != INVALID && AlignmentOf(CharToType(c)) == 2
    ensures c in "biusoah" ==> CharToType(c) != INVALID && AlignmentOf(CharToType(c)) == 4
    ensures c in "xtd" ==> CharToType(c) != INVALID && AlignmentOf(CharToType(c)) == 8
    ensures c in "(){}re" ==> CharToType(c) != INVALID && AlignmentOf(CharToType(c)) == 8
  {
  }

  /** Which characters are type codes at all. */
  lemma CodesKnown(c: char)
    ensures CharToType(c) == INVALID <==> c !in "ygvnqbius" && c !in "oahxtd" && c !in "(){}re"
  {
  }

  /** The printer gives back every type code except brackets, `r` and `e`. */
  lemma CodesPrinted(c: char)
    ensures c in "ybnqiuxtd" ==> TypeToChar(CharToType(c)) == Some(c)
    ensures c in "sogavh" ==> TypeToChar(CharToType(c)) == Some(c)
    ensures c in "(){}re" ==> TypeToChar(CharToType(c)) == None
  {
  }

  /** The codes the parser takes as complete array elements, as containers, and as closing. */
  lemma CodeClasses(c: char)
    ensures IsBasic(CharToType(c)) <==> c in "ynqiuxt" || c in "sogh"
    ensures IsContainer(CharToType(c)) <==> c in "av(){}re"
    ensures IsEnding(c) <==> c in ")}"
    ensures CharToContainer(c) == if c == 'a' then ARRAY_C else if c == 'v' then VARIANT_C
                                  else if c in "(r" then STRUCT_C else if c in "{e" then DICT_ENTRY_C else NoContainer
  {
  }
}
