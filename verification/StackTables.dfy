/** The constant tables of backend/component_registry.py, and what the resolver does on them. */
module StackTables {
  import opened ComponentRegistry
  import opened Collections

  /** The registry's component ids; `Other` stands for every id the registry does not know. */
  datatype Id =
    Other(name: string) | Minio | MinioCreateBucket | Hdfs | MysqlHms | Postgres | HiveMetastore | Nessie
    | IcebergRest | Spark | SparkHudi | SparkDelta | SparkIceberg | Trino | Starrocks | Kafka | Zookeeper | Flink
    | KafkaConnect | Airflow | Dagster | Dbt | Solr | Pgbouncer | Prometheus | Grafana | Loki | Superset
    | HadoopYarn | HadoopYarnNm | Hive | Tez | RangerAdmin | Jupyter | Polaris | Debezium | Openlineage
    | TrinoEnterprise

  datatype Role =
    S3StoreRole | BucketInitRole | HdfsStoreRole | HmsDbRole | PostgresDbRole | HiveCatalogRole | NessieCatalogRole
    | IcebergRestCatalogRole | SparkEngineRole | HudiFormatRole | DeltaFormatRole | IcebergFormatRole
    | SqlEngineRole | OlapEngineRole | MessageBusRole | ZkCoordRole | StreamProcessorRole | KafkaConnectRole
    | DagSchedulerRole | AssetSchedulerRole | SqlTransformRole | AuditStoreRole | PgPoolRole | MetricsStoreRole
    | DashboardRole | LogStoreRole | BiToolRole | YarnRmRole | YarnNmRole | HiveEngineRole | TezEngineRole
    | PolicyEngineRole | NotebookServerRole | PolarisCatalogRole | CdcIngestRole | LineageServerRole
    | FederatedSqlRole

  const REGISTERED: set<Id> := {
    Minio, MinioCreateBucket, Hdfs, MysqlHms, Postgres, HiveMetastore, Nessie, IcebergRest, Spark, SparkHudi,
    SparkDelta, SparkIceberg, Trino, Starrocks, Kafka, Zookeeper, Flink, KafkaConnect, Airflow, Dagster, Dbt,
    Solr, Pgbouncer, Prometheus, Grafana, Loki, Superset, HadoopYarn, HadoopYarnNm, Hive, Tez, RangerAdmin,
    Jupyter, Polaris, Debezium, Openlineage, TrinoEnterprise
  }

  function ComponentOf(c: Id): Component<Id, Role> {
    match c
    case Minio => Component([], [S3StoreRole])
    case MinioCreateBucket => Component([Minio], [BucketInitRole])
    case Hdfs => Component([], [HdfsStoreRole])
    case MysqlHms => Component([], [HmsDbRole])
    case Postgres => Component([], [PostgresDbRole])
    case HiveMetastore => Component([MysqlHms], [HiveCatalogRole])
    case Nessie => Component([], [NessieCatalogRole])
    case IcebergRest => Component([Minio], [IcebergRestCatalogRole])
    case Spark => Component([MinioCreateBucket], [SparkEngineRole])
    case SparkHudi => Component([MinioCreateBucket], [SparkEngineRole, HudiFormatRole])
    case SparkDelta => Component([MinioCreateBucket], [SparkEngineRole, DeltaFormatRole])
    case SparkIceberg => Component([MinioCreateBucket], [SparkEngineRole, IcebergFormatRole])
    case Trino => Component([], [SqlEngineRole])
    case Starrocks => Component([], [OlapEngineRole])
    case Kafka => Component([Zookeeper], [MessageBusRole])
    case Zookeeper => Component([], [ZkCoordRole])
    case Flink => Component([Kafka], [StreamProcessorRole])
    case KafkaConnect => Component([Kafka], [KafkaConnectRole])
    case Airflow => Component([Postgres], [DagSchedulerRole])
    case Dagster => Component([Postgres], [AssetSchedulerRole])
    case Dbt => Component([Trino], [SqlTransformRole])
    case Solr => Component([], [AuditStoreRole])
    case Pgbouncer => Component([Postgres], [PgPoolRole])
    case Prometheus => Component([], [MetricsStoreRole])
    case Grafana => Component([Prometheus], [DashboardRole])
    case Loki => Component([], [LogStoreRole])
    case Superset => Component([Postgres], [BiToolRole])
    case HadoopYarn => Component([Hdfs], [YarnRmRole])
    case HadoopYarnNm => Component([HadoopYarn], [YarnNmRole])
    case Hive => Component([HiveMetastore, Hdfs], [HiveEngineRole])
    case Tez => Component([Hdfs, HadoopYarn], [TezEngineRole])
    case RangerAdmin => Component([Postgres], [PolicyEngineRole])
    case Jupyter => Component([], [NotebookServerRole])
    case Polaris => Component([Minio], [PolarisCatalogRole])
    case Debezium => Component([Kafka], [CdcIngestRole])
    case Openlineage => Component([Postgres], [LineageServerRole])
    case TrinoEnterprise => Component([HiveMetastore], [SqlEngineRole, FederatedSqlRole])
    case Other(_) => Component([], [])
  }

  const COMPONENTS: map<Id, Component<Id, Role>> := map c | c in REGISTERED :: ComponentOf(c)

  function AutoDepsOf(role: Role): seq<Id> {
    match role
    case SparkEngineRole => [Minio, MinioCreateBucket]
    case HiveCatalogRole => [MysqlHms]
    case NessieCatalogRole => [Minio, MinioCreateBucket]
    case IcebergRestCatalogRole => [Minio, MinioCreateBucket]
    case PolarisCatalogRole => [Minio, MinioCreateBucket]
    case HiveEngineRole => [HadoopYarn]
    case YarnRmRole => [HadoopYarnNm]
    case TezEngineRole => [HadoopYarn]
    case FederatedSqlRole => [HiveMetastore]
    case DagSchedulerRole => [Postgres]
    case AssetSchedulerRole => [Postgres]
    case BiToolRole => [Postgres]
    case SqlTransformRole => [Trino]
    case LineageServerRole => [Postgres]
    case PolicyEngineRole => [Postgres]
    case PgPoolRole => [Postgres]
    case DashboardRole => [Prometheus]
    case MessageBusRole => [Zookeeper]
    case StreamProcessorRole => [Kafka]
    case CdcIngestRole => [Kafka]
    case _ => []
  }

  const AUTO_DEP_ROLES: set<Role> := {
    SparkEngineRole, HiveCatalogRole, NessieCatalogRole, IcebergRestCatalogRole, PolarisCatalogRole,
    HiveEngineRole, YarnRmRole, TezEngineRole, FederatedSqlRole, DagSchedulerRole, AssetSchedulerRole,
    BiToolRole, SqlTransformRole, LineageServerRole, PolicyEngineRole, PgPoolRole, DashboardRole,
    MessageBusRole, StreamProcessorRole, CdcIngestRole
  }

  const AUTO_DEPS: map<Role, seq<Id>> := map r | r in AUTO_DEP_ROLES :: AutoDepsOf(r)

  // The literal order list, cut at three of its group comments.
  const FOUNDATION: seq<Id> := [
    Zookeeper, Postgres, MysqlHms, Solr, Minio, Hdfs, MinioCreateBucket, HiveMetastore, Nessie, IcebergRest, Polaris
  ]
  const ENGINES: seq<Id> := [
    HadoopYarn, HadoopYarnNm, Spark, SparkHudi, SparkDelta, SparkIceberg, Hive, Tez
  ]
  const STREAMS_AND_QUERIES: seq<Id> := [
    Kafka, Debezium, Flink, KafkaConnect, Trino, TrinoEnterprise, Starrocks, RangerAdmin
  ]
  const SERVICES: seq<Id> := [
    Prometheus, Grafana, Loki, Airflow, Dagster, Dbt, Openlineage, Pgbouncer, Superset
  ]
  const ORDER: seq<Id> := FOUNDATION + ENGINES + (STREAMS_AND_QUERIES + SERVICES)

  const TABLES: Tables<Id, Role> := Tables(
    COMPONENTS, AUTO_DEPS, ORDER, {Hdfs, HadoopYarn, HadoopYarnNm}, {Minio, MinioCreateBucket})

  predicate IsOnPrem(c: Id) { c.Hdfs? || c.HadoopYarn? || c.HadoopYarnNm? }
  predicate IsStore(c: Id) { c.Minio? || c.MinioCreateBucket? }

  // ---------- checking the tables ----------

  /** The position of an id in `ORDER`. */
  function Rank(c: Id): nat {
    match c
    case Zookeeper => 0
    case Postgres => 1
    case MysqlHms => 2
    case Solr => 3
    case Minio => 4
    case Hdfs => 5
    case MinioCreateBucket => 6
    case HiveMetastore => 7
    case Nessie => 8
    case IcebergRest => 9
    case Polaris => 10
    case HadoopYarn => 11
    case HadoopYarnNm => 12
    case Spark => 13
    case SparkHudi => 14
    case SparkDelta => 15
    case SparkIceberg => 16
    case Hive => 17
    case Tez => 18
    case Kafka => 19
    case Debezium => 20
    case Flink => 21
    case KafkaConnect => 22
    case Trino => 23
    case TrinoEnterprise => 24
    case Starrocks => 25
    case RangerAdmin => 26
    case Prometheus => 27
    case Grafana => 28
    case Loki => 29
    case Airflow => 30
    case Dagster => 31
    case Dbt => 32
    case Openlineage => 33
    case Pgbouncer => 34
    case Superset => 35
    case _ => 99
  }

  lemma FoundationRanks(i: nat)
    requires i < |FOUNDATION|
    ensures Rank(FOUNDATION[i]) == i
  {
  }

  lemma EngineRanks(i: nat)
    requires i < |ENGINES|
    ensures Rank(ENGINES[i]) == 11 + i
  {
  }

  lemma StreamRanks(i: nat)
    requires i < |STREAMS_AND_QUERIES|
    ensures Rank(STREAMS_AND_QUERIES[i]) == 19 + i
  {
  }

  lemma ServiceRanks(i: nat)
    requires i < |SERVICES|
    ensures Rank(SERVICES[i]) == 27 + i
  {
  }

  lemma PositionIsRank(i: nat)
    requires i < |ORDER|
    ensures Rank(ORDER[i]) == i
  {
    if i < 11 {
      FoundationRanks(i);
    } else if i < 19 {
      EngineRanks(i - 11);
    } else if i < 27 {
      StreamRanks(i - 19);
    } else {
      ServiceRanks(i - 27);
    }
  }

  lemma FoundationAt(c: Id)
    requires Rank(c) < 11
    ensures FOUNDATION[Rank(c)] == c
  {
  }

  lemma EngineAt(c: Id)
    requires 11 <= Rank(c) < 19
    ensures ENGINES[Rank(c) - 11] == c
  {
  }

  lemma StreamAt(c: Id)
    requires 19 <= Rank(c) < 27
    ensures STREAMS_AND_QUERIES[Rank(c) - 19] == c
  {
  }

  lemma ServiceAt(c: Id)
    requires 27 <= Rank(c) < 36
    ensures SERVICES[Rank(c) - 27] == c
  {
  }

  lemma RankIsPosition(c: Id)
    requires Rank(c) < 36
    ensures ORDER[Rank(c)] == c
  {
    if Rank(c) < 11 {
      FoundationAt(c);
    } else if Rank(c) < 19 {
      EngineAt(c);
    } else if Rank(c) < 27 {
      StreamAt(c);
    } else {
      ServiceAt(c);
    }
  }

  lemma ExplicitRanks(c: Id, d: Id)
    requires d in ComponentOf(c).dependsOn
    ensures Rank(d) < Rank(c) && Rank(d) < 36
  {
    if Rank(c) < 19 {
      LowRanks(c, d);
    } else {
      HighRanks(c, d);
    }
  }

  lemma LowRanks(c: Id, d: Id)
    requires d in ComponentOf(c).dependsOn && Rank(c) < 19
    ensures Rank(d) < Rank(c) && Rank(d) < 36
  {
  }

  lemma HighRanks(c: Id, d: Id)
    requires d in ComponentOf(c).dependsOn && Rank(c) >= 19
    ensures Rank(d) < Rank(c) && Rank(d) < 36
  {
  }

  lemma DepListedEarlier(c: Id, d: Id)
    requires d in Explicit(TABLES, c)
    ensures d in ORDER
    ensures Rank(c) < 36 ==> d in ORDER[..Rank(c)]
  {
    assert Explicit(TABLES, c) == ComponentOf(c).dependsOn;
    ExplicitRanks(c, d);
    RankIsPosition(d);
    if Rank(c) < 36 {
      assert ORDER[..Rank(c)][Rank(d)] == d;
    }
  }

  lemma TablesOrderRespectsDeps()
    ensures OrderRespectsDeps(TABLES)
  {
    forall i: nat, j: nat | i < j < |TABLES.order| ensures TABLES.order[i] != TABLES.order[j] {
      PositionIsRank(i);
      PositionIsRank(j);
    }
    forall c, d | c in TABLES.components && d in TABLES.components[c].dependsOn ensures d in TABLES.order {
      DepListedEarlier(c, d);
    }
    forall i: nat, d | i < |TABLES.order| && d in Explicit(TABLES, TABLES.order[i]) ensures d in TABLES.order[..i] {
      PositionIsRank(i);
      DepListedEarlier(TABLES.order[i], d);
    }
  }

  lemma DepInTable(c: Id, d: Id)
    requires d in DepSeq(TABLES, c)
    ensures d in ComponentOf(c).dependsOn || exists role :: role in ComponentOf(c).configRoles && d in AutoDepsOf(role)
  {
    RolesDepsMember(TABLES, ComponentOf(c).configRoles, d);
  }

  lemma OnPremRows(c: Id, d: Id)
    requires d in ComponentOf(c).dependsOn
    ensures !d.Hive? && !d.Tez?
    ensures IsOnPrem(d) ==> c.Hive? || c.Tez? || c.HadoopYarn? || c.HadoopYarnNm?
  {
  }

  lemma OnPremRoles(role: Role, d: Id)
    requires d in AutoDepsOf(role)
    ensures !d.Hive? && !d.Tez?
    ensures IsOnPrem(d) ==> role.HiveEngineRole? || role.YarnRmRole? || role.TezEngineRole?
    ensures IsStore(d) ==>
              role.SparkEngineRole? || role.NessieCatalogRole? || role.IcebergRestCatalogRole?
                  || role.PolarisCatalogRole?
  {
  }

  lemma OnPremRoleOwners(c: Id, role: Role)
    requires role in ComponentOf(c).configRoles
    requires role.HiveEngineRole? || role.YarnRmRole? || role.TezEngineRole?
    ensures c.Hive? || c.Tez? || c.HadoopYarn?
  {
  }

  lemma OnPremDeps(c: Id, d: Id)
    requires d in DepSeq(TABLES, c)
    ensures !d.Hive? && !d.Tez?
    ensures IsOnPrem(d) ==> c.Hive? || c.Tez? || c.HadoopYarn? || c.HadoopYarnNm?
  {
    DepInTable(c, d);
    if d in ComponentOf(c).dependsOn {
      OnPremRows(c, d);
    } else {
      var role :| role in ComponentOf(c).configRoles && d in AutoDepsOf(role);
      OnPremRoles(role, d);
      if IsOnPrem(d) {
        OnPremRoleOwners(c, role);
      }
    }
  }

  lemma NeedsHdfs(c: Id)
    requires c.Hive? || c.Tez?
    ensures c in Pullers(TABLES)
  {
    HdfsIsExplicit(c);
    ExplicitIsDep(c, Hdfs);
    PullsIn(c, Hdfs);
  }

  lemma ExplicitIsDep(c: Id, d: Id)
    requires c in TABLES.components && d in ComponentOf(c).dependsOn
    ensures d in DepSeq(TABLES, c)
  {
    assert DepSeq(TABLES, c) == ComponentOf(c).dependsOn + RolesDeps(TABLES, ComponentOf(c).configRoles);
  }

  lemma PullsIn(c: Id, d: Id)
    requires c in TABLES.components && c !in TABLES.onPrem && d in TABLES.onPrem && d in DepSeq(TABLES, c)
    ensures c in Pullers(TABLES)
  {
  }

  lemma HdfsIsExplicit(c: Id)
    requires c.Hive? || c.Tez?
    ensures Hdfs in ComponentOf(c).dependsOn
  {
    assert ComponentOf(c).dependsOn[if c.Hive? then 1 else 0] == Hdfs;
  }

  lemma OnlyHiveAndTezPull(c: Id)
    requires c in Pullers(TABLES)
    ensures c.Hive? || c.Tez?
  {
    var d :| d in DepSeq(TABLES, c) && d in TABLES.onPrem;
    OnPremDeps(c, d);
  }

  /** Hive and Tez are the only components that pull HDFS or YARN in, and no component pulls those two in. */
  lemma TablesPulledInDirectly()
    ensures Pullers(TABLES) == {Hive, Tez} && PulledInDirectly(TABLES)
  {
    PullersAreHiveAndTez();
    forall c, d | c in TABLES.components && d in DepSeq(TABLES, c) ensures d !in Pullers(TABLES) {
      OnPremDeps(c, d);
    }
  }

  lemma PullersAreHiveAndTez()
    ensures Pullers(TABLES) == {Hive, Tez}
  {
    NeedsHdfs(Hive);
    NeedsHdfs(Tez);
    forall c | c in Pullers(TABLES) ensures c.Hive? || c.Tez? {
      OnlyHiveAndTezPull(c);
    }
  }

  /** The engines and catalogs that ask for the object store and its bucket. */
  predicate UsesStore(c: Id) {
    c.Spark? || c.SparkHudi? || c.SparkDelta? || c.SparkIceberg? || c.Nessie? || c.IcebergRest? || c.Polaris?
  }

  lemma StoreRows(c: Id, d: Id)
    requires IsStore(d) && d in ComponentOf(c).dependsOn
    ensures UsesStore(c) || (c.MinioCreateBucket? && d.Minio?)
  {
  }

  lemma StoreRoleOwners(c: Id, role: Role)
    requires role in ComponentOf(c).configRoles
    requires role.SparkEngineRole? || role.NessieCatalogRole? || role.IcebergRestCatalogRole?
            || role.PolarisCatalogRole?
    ensures UsesStore(c)
  {
  }

  function StoreRole(c: Id): Role {
    match c
    case Nessie => NessieCatalogRole
    case IcebergRest => IcebergRestCatalogRole
    case Polaris => PolarisCatalogRole
    case _ => SparkEngineRole
  }

  lemma StoreUserRole(c: Id)
    requires UsesStore(c)
    ensures ComponentOf(c).configRoles != [] && ComponentOf(c).configRoles[0] == StoreRole(c)
  {
  }

  lemma StoreRoleDeps(c: Id, d: Id)
    requires IsStore(d)
    ensures d in RoleDeps(TABLES, StoreRole(c))
  {
    var deps := AutoDepsOf(StoreRole(c));
    assert deps[0] == Minio && deps[1] == MinioCreateBucket;
  }

  lemma StoreDepsFrom(c: Id, d: Id)
    requires IsStore(d) && d in DepSeq(TABLES, c)
    ensures UsesStore(c) || (c.MinioCreateBucket? && d.Minio?)
  {
    DepInTable(c, d);
    if d in ComponentOf(c).dependsOn {
      StoreRows(c, d);
    } else {
      var role :| role in ComponentOf(c).configRoles && d in AutoDepsOf(role);
      OnPremRoles(role, d);
      StoreRoleOwners(c, role);
    }
  }

  lemma StoreDepsTo(c: Id, d: Id)
    requires IsStore(d) && (UsesStore(c) || (c.MinioCreateBucket? && d.Minio?))
    ensures d in DepSeq(TABLES, c)
  {
    if UsesStore(c) {
      StoreUserRole(c);
      StoreRoleDeps(c, d);
      RolesDepsMember(TABLES, ComponentOf(c).configRoles, d);
      assert StoreRole(c) in ComponentOf(c).configRoles;
    } else {
      assert ComponentOf(c).dependsOn[0] == Minio;
    }
  }

  /** Some selected component asks for a MinIO id that is not selected. */
  ghost predicate StoreNeeded(selected: seq<Id>) {
    && (exists c :: c in selected && (UsesStore(c) || c.MinioCreateBucket?))
    && !(Minio in selected && MinioCreateBucket in selected)
  }

  lemma StoreWantedHere(selected: seq<Id>, c: Id, d: Id)
    requires c in selected && d !in selected && IsStore(d) && d in DepSeq(TABLES, c)
    ensures d in Wanted(TABLES, false, Elems(selected)) * TABLES.objectStore - Elems(selected)
  {
    WantedHas(TABLES, false, Elems(selected), c, d);
  }

  lemma StoreWantedBy(selected: seq<Id>, c: Id)
    requires c in selected && (UsesStore(c) || c.MinioCreateBucket?) && StoreNeeded(selected)
    ensures Wanted(TABLES, false, Elems(selected)) * TABLES.objectStore - Elems(selected) != {}
  {
    var d := if Minio in selected then MinioCreateBucket else Minio;
    StoreDepsTo(c, d);
    StoreWantedHere(selected, c, d);
  }

  lemma StoreWantedFrom(selected: seq<Id>, c: Id, d: Id)
    requires c in selected && d !in selected && IsStore(d) && d in DepSeq(TABLES, c)
    ensures StoreNeeded(selected)
  {
    StoreDepsFrom(c, d);
  }

  lemma StoreWanted(selected: seq<Id>)
    ensures Wanted(TABLES, false, Elems(selected)) * TABLES.objectStore - Elems(selected) != {} <==>
            StoreNeeded(selected)
  {
    if StoreNeeded(selected) {
      var c :| c in selected && (UsesStore(c) || c.MinioCreateBucket?);
      StoreWantedBy(selected, c);
    }
    if d :| d in Wanted(TABLES, false, Elems(selected)) * TABLES.objectStore - Elems(selected) {
      var c :| c in Elems(selected) && d in DepSeq(TABLES, c);
      StoreWantedFrom(selected, c, d);
    }
  }

  // ---------- the resolver on the registry ----------

  /** Every explicit dependency in the answer precedes its dependant, whatever was selected. */
  lemma RegistryTopological(selected: seq<Id>)
    ensures TopoSorted(TABLES, Resolve(TABLES, selected))
  {
    TablesOrderRespectsDeps();
    ResolveTopological(TABLES, selected);
  }

  /** Exactly when the answer holds on-prem storage together with an unselected MinIO id. */
  lemma RegistryMixedExactly(selected: seq<Id>)
    ensures Mixed(TABLES, selected) <==>
            && Hdfs !in selected && HadoopYarn !in selected && HadoopYarnNm !in selected
            && (Hive in selected || Tez in selected)
            && StoreNeeded(selected)
  {
    TablesPulledInDirectly();
    MixedExactly(TABLES, selected);
    StoreWanted(selected);
    MembersMeet(selected, TABLES.onPrem);
    MembersMeet(selected, {Hive, Tez});
  }

  lemma MembersMeet(s: seq<Id>, other: set<Id>)
    ensures Elems(s) * other != {} <==> exists c :: c in s && c in other
    ensures other * Elems(s) == Elems(s) * other
  {
    if c :| c in s && c in other {
      assert c in Elems(s) * other;
    }
  }

  lemma TezSparkNeedsStore(selected: seq<Id>)
    requires |selected| == 2 && selected[0] == Tez && selected[1] == Spark
    ensures StoreNeeded(selected) && Tez in selected
    ensures forall c :: IsOnPrem(c) ==> c !in selected
  {
    assert UsesStore(selected[1]);
  }

  /** Tez with Spark: HDFS arrives one round too late to keep MinIO out. */
  lemma TezWithSparkMixes()
    ensures Mixed(TABLES, [Tez, Spark])
  {
    TezSparkNeedsStore([Tez, Spark]);
    RegistryMixedExactly([Tez, Spark]);
  }
}
