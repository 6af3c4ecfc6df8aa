/**
 * `remove_achievements`: drop the `Achievements` entry of a game record's
 * `game_info`, on a deep copy, with Python's semantics for `in` and `del`
 * when `game_info` is not an object.
 */
module JsonUtils {
  import opened Common
  import opened Text

  /** A decoded JSON value (numbers restricted to integers). */
  datatype Json =
    | Null
    | Bool(b: bool)
    | Num(n: int)
    | Str(s: string)
    | Arr(items: seq<Json>)
    | Obj(fields: map<string, Json>)

  /** The TypeError Python raises for `in` on a scalar, or `del` on a list or a string. */
  datatype TypeError = TypeError

  const GameInfoKey: string := "game_info"
  const AchievementsKey: string := "Achievements"

  /**
   * Python's `key in v`: key of an object, element of a list, substring of
   * a string; a TypeError for null, booleans and numbers.
   */
  function In(key: string, v: Json): (r: Result<bool, TypeError>)
    ensures r.Err? <==> v.Null? || v.Bool? || v.Num?
    ensures v.Obj? ==> r == Ok(key in v.fields)
    ensures v.Arr? ==> r == Ok(Str(key) in v.items)
    ensures v.Str? ==> r == Ok(Contains(v.s, key))
  {
    match v
    case Obj(fields) => Ok(key in fields)
    case Arr(items) => Ok(Str(key) in items)
    case Str(s) => Ok(Contains(s, key))
    case _ => Err(TypeError)
  }

  /**
   * Python's `del v[key]` for a key `in` has found: only an object supports
   * it, and it loses that key and nothing else.
   */
  function Del(v: Json, key: string): (r: Result<Json, TypeError>)
    ensures r.Ok? <==> v.Obj?
    ensures r.Ok? ==>
      && r.value.Obj? && key !in r.value.fields
      && (forall k :: k in v.fields && k != key ==> k in r.value.fields && r.value.fields[k] == v.fields[k])
      && (forall k :: k in r.value.fields ==> k in v.fields)
  {
    if v.Obj? then Ok(Obj(v.fields - {key})) else Err(TypeError)
  }

  /** `game_info` holds `Achievements` as a key, an element or a substring: the `in` test is true. */
  predicate Mentions(v: Json) {
    In(AchievementsKey, v) == Ok(true)
  }

  /**
   * The call fails exactly when `game_info` is a scalar, or a list or a
   * string in which `Achievements` occurs; otherwise every top-level key
   * keeps its value except `game_info`, which loses only `Achievements`.
   * The argument itself is a value and is never changed.
   */
  function RemoveAchievements(data: map<string, Json>): (r: Result<map<string, Json>, TypeError>)
    ensures r.Err? <==>
      GameInfoKey in data && var v := data[GameInfoKey]; v.Null? || v.Bool? || v.Num? || (!v.Obj? && Mentions(v))
    ensures r.Ok? ==>
      && r.value.Keys == data.Keys
      && (forall k :: k in data && k != GameInfoKey ==> r.value[k] == data[k])
      && (GameInfoKey in data && data[GameInfoKey].Obj? ==>
            var before, after := data[GameInfoKey].fields, r.value[GameInfoKey];
            && after.Obj?
            && after.fields.Keys == before.Keys - {AchievementsKey}
            && forall k :: k in after.fields ==> after.fields[k] == before[k])
      && (GameInfoKey in data && !data[GameInfoKey].Obj? ==> r.value[GameInfoKey] == data[GameInfoKey])
  {
    if GameInfoKey !in data then Ok(data)
    else
      match In(AchievementsKey, data[GameInfoKey])
      case Err(e) => Err(e)
      case Ok(false) => Ok(data)
      case Ok(true) =>
        match Del(data[GameInfoKey], AchievementsKey)
        case Err(e) => Err(e)
        case Ok(info) => Ok(data[GameInfoKey := info])
  }

  /** Without `game_info`, or when `Achievements` does not occur in it, the record comes back unchanged. */
  lemma NothingToRemove(data: map<string, Json>)
    requires GameInfoKey !in data || (!Mentions(data[GameInfoKey]) && !data[GameInfoKey].Null? && !data[GameInfoKey].Bool? && !data[GameInfoKey].Num?)
    ensures RemoveAchievements(data) == Ok(data)
  {
  }

  /** Removing twice is removing once. */
  lemma RemoveAchievementsIdempotent(data: map<string, Json>)
    requires RemoveAchievements(data).Ok?
    ensures RemoveAchievements(RemoveAchievements(data).value) == RemoveAchievements(data)
  {
    var r := RemoveAchievements(data).value;
    if GameInfoKey in data && data[GameInfoKey].Obj? && AchievementsKey in data[GameInfoKey].fields {
      assert r[GameInfoKey].fields == data[GameInfoKey].fields - {AchievementsKey};
      assert r[GameInfoKey := r[GameInfoKey]] == r;
    }
  }
}
