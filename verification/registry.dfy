/** The fixed allow-list of machine tables. Every data endpoint checks a
    caller-supplied table name against it before it touches storage, and the
    fleet totals iterate it in this order. */
module Registry {

  const ValidTables: seq<string> := [
    "120型",
    "sensor_data1",
    "sensor_data2",
    "冰水機",
    "空壓機",
    "破碎機(220V)",
    "雕刻機",
    "攪拌機A"
  ]

  /** `table_name in VALID_TABLES`: exactly the eight machines are known;
      any other name, the empty one included, is refused. */
  predicate IsValid(name: string)
    ensures IsValid(name) <==>
      || name == "120型" || name == "sensor_data1" || name == "sensor_data2"
      || name == "冰水機" || name == "空壓機" || name == "破碎機(220V)"
      || name == "雕刻機" || name == "攪拌機A"
    ensures IsValid(name) ==> |name| > 0
  {
    name in ValidTables
  }

  /** No machine appears twice, so a fleet total counts each table once. */
  lemma ValidTablesDistinct()
    ensures forall i, j :: 0 <= i < j < |ValidTables| ==> ValidTables[i] != ValidTables[j]
  {
  }
}
