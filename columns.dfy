/** Column descriptors of the loader (CsvUtils::parseColumn). A header field
    `name:type:format` names a column and, when type detection is on, picks
    its SQL type from the lower-cased type suffix. */
module Columns {
  import opened Wrappers
  import opened Text

  /** The `stype` of a descriptor; only a date column carries a format. */
  datatype SType = Date(format: string) | Int | Primary | Numeric | Textual | Clean | Str

  /** The descriptor array: `name`, `stype` and (through SqlType) `type`. */
  datatype Column = Column(name: string, stype: SType)

  const DefaultDateFormat: string := "yyyy-mm-dd"

  /** The `stype` text stored in the descriptor. */
  function STypeName(t: SType): string
  {
    match t
    case Date(_) => "date"
    case Int => "int"
    case Primary => "primary"
    case Numeric => "numeric"
    case Textual => "text"
    case Clean => "clean"
    case Str => "string"
  }

  /** The `type` entry: the SQL column type used in CREATE TABLE. */
  function SqlType(t: SType): string
  {
    match t
    case Date(_) => "date"
    case Int => "int(10)"
    case Primary => "int(10) primary key auto_increment"
    case Numeric => "decimal(12,2)"
    case Textual => "varchar(4096)"
    case Clean => "varchar(4096)"
    case Str => "varchar(256)"
  }

  /** The switch on the lower-cased suffix; `format` is the lower-cased third
      segment when there is one. */
  function TypeOf(suffix: string, format: Option<string>): (t: SType)
    ensures t.Date? <==> suffix == "date"
    ensures t.Date? ==> t.format == if format.Some? then format.value else DefaultDateFormat
    ensures !t.Date? && t != Str ==> STypeName(t) == suffix
  {
    if suffix == "date" then Date(if format.Some? then format.value else DefaultDateFormat)
    else if suffix == "int" then Int
    else if suffix == "primary" then Primary
    else if suffix == "numeric" then Numeric
    else if suffix == "text" then Textual
    else if suffix == "clean" then Clean
    else Str
  }

  function ResolveColumn(field: string, detect: bool): (c: Column)
    ensures !detect ==> c == Column(field, Str)
    ensures detect ==> c.name == Split(field, ':')[0]
  {
    if !detect then Column(field, Str)
    else
      var p := Split(field, ':');
      if |p| < 2 then Column(p[0], Str)
      else Column(p[0], TypeOf(ToLower(p[1]), if |p| > 2 then Some(ToLower(p[2])) else None))
  }

  /** The header text that names column `name` with type `t`. */
  function Descriptor(name: string, t: SType): string
  {
    Join([name, STypeName(t)] + (if t.Date? then [t.format] else []), ":")
  }

  /** With detection on, the name is the text before the first ':', or the
      whole field when it holds none. */
  lemma ResolveName(field: string)
    ensures var n := ResolveColumn(field, true).name;
            ':' !in n && (n == field <==> ':' !in field)
            && (n != field ==> |n| < |field| && field[..|n| + 1] == n + ":")
  {
    SplitFirst(field, ':');
    SplitPieces(field, ':');
    var n := Split(field, ':')[0];
    if |n| < |field| {
      assert field[..|n| + 1] == field[..|n|] + [field[|n|]];
    }
  }

  /** Writing a descriptor and resolving it gives the same column back, for
      every type, provided the name and format have no ':' and the format has
      no upper-case letters (it is lower-cased on the way in). */
  lemma ResolveRoundTrip(name: string, t: SType)
    requires ':' !in name
    requires t.Date? ==> ':' !in t.format && forall i :: 0 <= i < |t.format| ==> !('A' <= t.format[i] <= 'Z')
    ensures ResolveColumn(Descriptor(name, t), true) == Column(name, t)
  {
    var s := STypeName(t);
    ToLowerFixed(s);
    TypeOfName(t);
    if t.Date? {
      var parts := [name, s, t.format];
      assert [name, s] + [t.format] == parts;
      assert forall i :: 0 <= i < |parts| ==> ':' !in parts[i];
      SplitJoin(parts, ':');
      ToLowerFixed(t.format);
      assert ToLower(parts[1]) == s && ToLower(parts[2]) == t.format;
    } else {
      var parts := [name, s];
      assert forall i :: 0 <= i < |parts| ==> ':' !in parts[i];
      assert parts + [] == parts;
      SplitJoin(parts, ':');
    }
  }

  /** The type table read backwards: each type's name selects that type. */
  lemma TypeOfName(t: SType)
    ensures ':' !in STypeName(t)
    ensures forall i :: 0 <= i < |STypeName(t)| ==> !('A' <= STypeName(t)[i] <= 'Z')
    ensures TypeOf(STypeName(t), if t.Date? then Some(t.format) else None) == t
  {
  }

  /** The type suffix is case-insensitive. */
  lemma SuffixCaseInsensitive(name: string, suffix: string)
    requires ':' !in name && ':' !in suffix
    ensures ResolveColumn(name + ":" + suffix, true) == ResolveColumn(name + ":" + ToLower(suffix), true)
  {
    assert ':' !in ToLower(suffix) by {
      forall i | 0 <= i < |suffix|
        ensures ToLower(suffix)[i] != ':'
      {
        assert LowerChar(suffix[i]) != ':';
      }
    }
    SplitJoin([name, suffix], ':');
    SplitJoin([name, ToLower(suffix)], ':');
    ToLowerIdempotent(suffix);
  }

  /** An unknown or missing suffix gives a plain string column, and a date
      suffix without a format gives the default format. */
  lemma SuffixDefaults(name: string, suffix: string)
    requires ':' !in name && ':' !in suffix
    ensures ResolveColumn(name, true) == Column(name, Str)
    ensures ToLower(suffix) !in {"date", "int", "primary", "numeric", "text", "clean"}
            ==> ResolveColumn(name + ":" + suffix, true) == Column(name, Str)
    ensures ToLower(suffix) == "date"
            ==> ResolveColumn(name + ":" + suffix, true) == Column(name, Date(DefaultDateFormat))
  {
    SplitNoSep(name, ':');
    SplitJoin([name, suffix], ':');
  }
}
