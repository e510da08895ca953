/**
 * Record<T>: the storage envelope. The JSON text is the stored state; Detail is the typed view,
 * decoded from the text on every read and encoded into it on every write.
 */
module Records {
  import opened Results
  import Serializer

  /** A DateTimeOffset from DateTimeOffset.UtcNow, as ticks at offset zero. */
  type Timestamp = int

  class Record<T> {
    var Id: int
    var Json: string
    var Created: Timestamp
    var Modified: Timestamp
    var Type: string
    /** How the engine writes and parses a T, and typeof(T).Name. */
    const info: Serializer.TypeInfo<T>

    /**
     * new Record<T>(): the property initialisers. Created and Modified each read the clock
     * when initialised, so the two readings are separate parameters.
     */
    constructor (info: Serializer.TypeInfo<T>, createdNow: Timestamp, modifiedNow: Timestamp)
      ensures this.info == info
      ensures Id == 0 && Json == "{}" && Type == info.name
      ensures Created == createdNow && Modified == modifiedNow
    {
      this.info := info;
      Id := 0;
      Json := "{}";
      Created := createdNow;
      Modified := modifiedNow;
      Type := info.name;
    }

    /** The Detail getter: the stored text decoded under the default profile; a null result raises. */
    function Detail(): (r: Result<T>)
      reads this
      ensures r.Success? <==>
        info.parse(Json, Serializer.DefaultOptions).Success? && info.parse(Json, Serializer.DefaultOptions).value.Some?
      ensures r.Success? ==> info.parse(Json, Serializer.DefaultOptions) == Success(Some(r.value))
      ensures info.parse(Json, Serializer.DefaultOptions) == Success(None) ==> r == Failure(JsonError)
      ensures info.parse(Json, Serializer.DefaultOptions).Failure? ==>
        r == Failure(info.parse(Json, Serializer.DefaultOptions).error)
    {
      Serializer.Deserialize(info, Json, Serializer.DefaultOptions)
    }

    /**
     * The Detail setter: replaces the stored text with the value encoded under the default
     * profile. Nothing else changes; in particular Modified is left for the caller to stamp.
     */
    method SetDetail(value: T)
      modifies this`Json
      ensures Json == Serializer.Serialize(info, value)
      ensures Id == old(Id) && Created == old(Created) && Modified == old(Modified) && Type == old(Type)
      ensures Detail() == Serializer.Deserialize(info, Serializer.Serialize(info, value), Serializer.DefaultOptions)
      ensures info.parse(Serializer.Serialize(info, value), Serializer.DefaultOptions) == Success(Some(value)) ==>
        Detail() == Success(value)
    {
      Json := Serializer.Serialize(info, value);
    }
  }

  /**
   * The update pattern of the sample controller: stamp Modified, read Detail, write back a new
   * value. Id, Created and Type survive; the text is the new value's encoding.
   */
  method StampAndReplace<T>(record: Record<T>, now: Timestamp, value: T)
    modifies record
    ensures record.Modified == now
    ensures record.Json == Serializer.Serialize(record.info, value)
    ensures record.Id == old(record.Id) && record.Created == old(record.Created) && record.Type == old(record.Type)
  {
    record.Modified := now;
    record.SetDetail(value);
  }
}
